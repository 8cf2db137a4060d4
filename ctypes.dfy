/** Values shared by every container of the library: the opaque user data
    pointer (`void *`), node pointers into a heap of nodes, an Option type,
    and C strings with `strcmp`. */
module CTypes {

  /** An opaque `void *` supplied by the caller. The containers only store,
      compare with NULL and hand back such pointers, so an address is all
      that matters about one. */
  datatype Ptr = Null | Addr(addr: nat)

  /** A pointer to a node of a container. The nodes of one container live in
      a heap of node records (a `seq` field of the container); `Ref(i)`
      points at record `i`, and allocating a node appends a record. */
  datatype Link = Nil | Ref(index: nat)

  datatype Option<T> = None | Some(value: T)

  /** A non-NUL character of a C string, read as `unsigned char`, which is
      how `strcmp` compares characters (section 7.24.4 of ISO C11). */
  newtype Byte = b: int | 1 <= b < 256 witness 1

  /** A C string without its terminating NUL. */
  type Key = seq<Byte>

  /** The sign of `strcmp(a, b)`: a lexicographic comparison in which a
      proper prefix compares less than the longer string (its NUL is smaller
      than any character). Only the sign of `strcmp` is ever tested. */
  function Strcmp(a: Key, b: Key): (r: int)
    ensures -1 <= r <= 1
    ensures r == 0 <==> a == b
  {
    if a == [] || b == [] then
      (if a == b then 0 else if a == [] then -1 else 1)
    else if a[0] < b[0] then -1
    else if a[0] > b[0] then 1
    else
      var r := Strcmp(a[1..], b[1..]);
      assert a == [a[0]] + a[1..] && b == [b[0]] + b[1..];
      r
  }

  /** `a` sorts strictly before `b`. */
  predicate Less(a: Key, b: Key) {
    Strcmp(a, b) < 0
  }

  lemma {:induction false} StrcmpAntisymmetric(a: Key, b: Key)
    ensures Strcmp(b, a) == -Strcmp(a, b)
  {
    if a != [] && b != [] && a[0] == b[0] {
      StrcmpAntisymmetric(a[1..], b[1..]);
    }
  }

  lemma {:induction false} StrcmpTransitive(a: Key, b: Key, c: Key)
    requires Less(a, b) && Less(b, c)
    ensures Less(a, c)
  {
    if a != [] && b != [] && c != [] && a[0] == b[0] && b[0] == c[0] {
      StrcmpTransitive(a[1..], b[1..], c[1..]);
    }
  }

  /** `Less` is a strict total order: exactly one of `a < b`, `a == b`,
      `b < a` holds. */
  lemma {:induction false} LessTrichotomy(a: Key, b: Key)
    ensures Less(a, b) || a == b || Less(b, a)
    ensures !(Less(a, b) && Less(b, a))
    ensures !Less(a, a)
  {
    StrcmpAntisymmetric(a, b);
  }
}
