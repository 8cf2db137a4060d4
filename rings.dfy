/** Places on a ring: the order of the nodes of a circular list, from the
    head, as a sequence of node indices. */
module Rings {
  import opened CTypes
  import opened Sequences

  /** The place after `k` on a ring of `n` places. */
  function Succ(n: nat, k: nat): nat {
    if k + 1 < n then k + 1 else 0
  }

  /** The place before `k` on a ring of `n` places. */
  function Pred(n: nat, k: nat): nat {
    if k == 0 then (if n == 0 then 0 else n - 1) else k - 1
  }

  /** Stepping back undoes stepping forward, and the other way round. */
  lemma {:induction false} SuccOfPred(n: nat, k: nat)
    requires k < n
    ensures Succ(n, Pred(n, k)) == k && Pred(n, Succ(n, k)) == k
  {
  }

  /** No node appears twice. */
  ghost predicate Distinct(order: seq<nat>) {
    forall j, k | 0 <= j < |order| && 0 <= k < |order| && j != k :: order[j] != order[k]
  }

  /** The head of a list whose nodes are `order`; NULL when empty. */
  function FirstOf(order: seq<nat>): Link {
    if order == [] then Nil else Ref(order[0])
  }

  /** The tail of a list whose nodes are `order`; NULL when empty. */
  function LastOf(order: seq<nat>): Link {
    if order == [] then Nil else Ref(order[|order| - 1])
  }

  /** The place of the node `x` on the ring. */
  ghost function IndexOf(s: seq<nat>, x: nat): (i: nat)
    requires x in s
    ensures i < |s| && s[i] == x
  {
    if s[0] == x then 0 else 1 + IndexOf(s[1..], x)
  }

  /** A node not yet in `order` keeps it free of repetitions. */
  lemma {:induction false} InsertDistinct(order: seq<nat>, i: nat, j: nat)
    requires Distinct(order) && i <= |order| && j !in order
    ensures Distinct(InsertAt(order, i, j))
  {
    var o := InsertAt(order, i, j);
    InsertAtElements(order, i, j);
    forall a, b | 0 <= a < |o| && 0 <= b < |o| && a != b
      ensures o[a] != o[b]
    {
      var a' := if a < i then a else a - 1;
      var b' := if b < i then b else b - 1;
      if a != i && b != i {
        assert o[a] == order[a'] && o[b] == order[b'];
      } else if a == i {
        assert o[b] == order[b'];
      } else {
        assert o[a] == order[a'];
      }
    }
  }

  lemma {:induction false} RemoveDistinct(order: seq<nat>, p: nat)
    requires Distinct(order) && p < |order|
    ensures Distinct(RemoveAt(order, p))
  {
    var o := RemoveAt(order, p);
    RemoveAtElements(order, p);
    forall a, b | 0 <= a < |o| && 0 <= b < |o| && a != b
      ensures o[a] != o[b]
    {
      var a' := if a < p then a else a + 1;
      var b' := if b < p then b else b + 1;
      assert o[a] == order[a'] && o[b] == order[b'];
    }
  }

  /** An insertion after place `p` keeps the first node, and gives a new
      last node when `p` is the last place. */
  lemma {:induction false} EndsAfterInsert(order: seq<nat>, p: nat, j: nat)
    requires p < |order|
    ensures FirstOf(InsertAt(order, p + 1, j)) == FirstOf(order)
    ensures LastOf(InsertAt(order, p + 1, j)) == if p + 1 == |order| then Ref(j) else LastOf(order)
  {
    InsertAtElements(order, p + 1, j);
  }

  /** One call of the visitor: the element's data and the caller's extra
      data. */
  datatype Visit = Visit(userdata: Ptr, extradata: Ptr)

  /** The calls a visitor receives for the elements `s`, in order. */
  function Visits(s: seq<Ptr>, extradata: Ptr): (calls: seq<Visit>)
    ensures |calls| == |s|
    ensures forall k | 0 <= k < |s| :: calls[k] == Visit(s[k], extradata)
  {
    seq(|s|, k requires 0 <= k < |s| => Visit(s[k], extradata))
  }
}
