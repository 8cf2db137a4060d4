/** Edits of a sequence at a position: what the list operations do to the
    sequence of elements they hold. */
module Sequences {

  /** `s` with `x` placed at index `i`, the elements from `i` on moving one
      place back. */
  function InsertAt<T>(s: seq<T>, i: nat, x: T): (r: seq<T>)
    requires i <= |s|
    ensures |r| == |s| + 1
  {
    s[..i] + [x] + s[i..]
  }

  /** The elements of an insertion, place by place. */
  lemma {:induction false} InsertAtElements<T>(s: seq<T>, i: nat, x: T)
    requires i <= |s|
    ensures InsertAt(s, i, x)[i] == x
    ensures forall k | 0 <= k < i :: InsertAt(s, i, x)[k] == s[k]
    ensures forall k | i < k < |s| + 1 :: InsertAt(s, i, x)[k] == s[k - 1]
  {
  }

  /** An insertion at index 1 puts the element right after the first
      one. */
  lemma {:induction false} InsertAtOne<T>(first: seq<T>, s: seq<T>, x: T)
    requires |first| == 1
    ensures InsertAt(first + s, 1, x) == first + ([x] + s)
  {
    assert (first + s)[..1] == first && (first + s)[1..] == s;
  }

  /** `s` without the element at index `i`, the later ones moving one
      place forward. */
  function RemoveAt<T>(s: seq<T>, i: nat): (r: seq<T>)
    requires i < |s|
    ensures |r| == |s| - 1
  {
    s[..i] + s[i + 1..]
  }

  /** The elements of a removal, place by place. */
  lemma {:induction false} RemoveAtElements<T>(s: seq<T>, i: nat)
    requires i < |s|
    ensures forall k | 0 <= k < i :: RemoveAt(s, i)[k] == s[k]
    ensures forall k | i <= k < |s| - 1 :: RemoveAt(s, i)[k] == s[k + 1]
  {
  }

  /** Removing what was just inserted gives the sequence back. */
  lemma {:induction false} RemoveWhatWasInserted<T>(s: seq<T>, i: nat, x: T)
    requires i <= |s|
    ensures RemoveAt(InsertAt(s, i, x), i) == s
  {
    var r := RemoveAt(InsertAt(s, i, x), i);
    InsertAtElements(s, i, x);
    RemoveAtElements(InsertAt(s, i, x), i);
    assert |r| == |s|;
    forall k | 0 <= k < |s|
      ensures r[k] == s[k]
    {
      if k >= i {
        assert r[k] == InsertAt(s, i, x)[k + 1];
      }
    }
  }

  /** An insertion adds one occurrence of its element and keeps every
      other. */
  lemma {:induction false} InsertAtMultiset<T>(s: seq<T>, i: nat, x: T)
    requires i <= |s|
    ensures multiset(InsertAt(s, i, x)) == multiset(s) + multiset{x}
  {
    assert s == s[..i] + s[i..];
    assert InsertAt(s, i, x) == s[..i] + ([x] + s[i..]);
  }

  /** A removal takes away one occurrence of the removed element and keeps
      every other. */
  lemma {:induction false} RemoveAtMultiset<T>(s: seq<T>, i: nat)
    requires i < |s|
    ensures multiset(RemoveAt(s, i)) == multiset(s) - multiset{s[i]}
  {
    assert s == s[..i] + [s[i]] + s[i + 1..];
  }
}
