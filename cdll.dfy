/** The circular doubly linked list of `src/lib/GenUtils/CDLL.c`. A
    `GenUtils_CDLL` holds a head pointer and a size; its nodes live in the
    heap `nodes`, and each `GenUtils_DoubleNode` holds a user data pointer,
    `first` (the previous node) and `second` (the next node). The tail is
    the head's `first`. Every operation takes a possibly-NULL handle, as
    the C functions do. */
module GenUtilsCDLL {
  import opened CTypes
  import opened Sequences
  import opened Rings

  datatype DoubleNode = DoubleNode(userdata: Ptr, first: Link, second: Link)

  type DHeap = seq<DoubleNode>

  /** The nodes `order` (head first) are distinct records of `h`; each
      one's `second` is the next of them and its `first` the previous one,
      around the ring. */
  ghost predicate Ring(h: DHeap, order: seq<nat>) {
    && (forall k | 0 <= k < |order| :: order[k] < |h|)
    && Distinct(order)
    && (forall k | 0 <= k < |order| :: SecondOk(h, order, k))
    && (forall k | 0 <= k < |order| :: FirstOk(h, order, k))
  }

  /** The node at place `k` links forward to the node at the next place. */
  ghost predicate SecondOk(h: DHeap, order: seq<nat>, k: nat)
    requires k < |order| && order[k] < |h|
  {
    h[order[k]].second == Ref(order[Succ(|order|, k)])
  }

  /** The node at place `k` links back to the node at the previous
      place. */
  ghost predicate FirstOk(h: DHeap, order: seq<nat>, k: nat)
    requires k < |order| && order[k] < |h|
  {
    h[order[k]].first == Ref(order[Pred(|order|, k)])
  }

  function UserdataAt(h: DHeap, i: nat): Ptr {
    if i < |h| then h[i].userdata else Null
  }

  /** The user data along `order`. */
  ghost function Data(h: DHeap, order: seq<nat>): (s: seq<Ptr>)
    ensures |s| == |order|
    ensures forall k | 0 <= k < |order| :: s[k] == UserdataAt(h, order[k])
  {
    seq(|order|, k requires 0 <= k < |order| => UserdataAt(h, order[k]))
  }

  // ---------------------------------------------------------------------
  // The ring after one splice

  /** The `second` links after a node `j` is spliced in at place `i`,
      between `a` (before it) and `b` (after it). */
  lemma {:induction false} SecondsAfterInsert(h: DHeap, order: seq<nat>, i: nat, h': DHeap, j: nat, a: nat, b: nat)
    requires Ring(h, order) && 1 <= |order| && i <= |order| && j == |h| && |h'| == |h| + 1
    requires a == order[Pred(|order|, i)] && b == order[if i < |order| then i else 0]
    requires h'[j].second == Ref(b) && h'[a].second == Ref(j)
    requires forall x | 0 <= x < |h| && x != a :: h'[x].second == h[x].second
    ensures forall k | 0 <= k < |order| + 1 :: InsertAt(order, i, j)[k] < |h'| && SecondOk(h', InsertAt(order, i, j), k)
  {
    var n := |order|;
    var o := InsertAt(order, i, j);
    InsertAtElements(order, i, j);
    forall k | 0 <= k < n + 1
      ensures o[k] < |h'| && SecondOk(h', o, k)
    {
      var s := Succ(n + 1, k);
      if k == i {
        if i < n {
          assert o[s] == order[i];
        } else {
          assert o[s] == order[0];
        }
      } else {
        var m := if k < i then k else k - 1;
        assert o[k] == order[m];
        if m == Pred(n, i) {
          assert s == i;
        } else {
          assert order[m] != a;
          assert SecondOk(h, order, m);
          if s < i {
            assert o[s] == order[s];
          } else {
            assert o[s] == order[s - 1];
          }
        }
      }
    }
  }

  /** The `first` links after a node `j` is spliced in at place `i`,
      between `a` (before it) and `b` (after it). */
  lemma {:induction false} FirstsAfterInsert(h: DHeap, order: seq<nat>, i: nat, h': DHeap, j: nat, a: nat, b: nat)
    requires Ring(h, order) && 1 <= |order| && i <= |order| && j == |h| && |h'| == |h| + 1
    requires a == order[Pred(|order|, i)] && b == order[if i < |order| then i else 0]
    requires h'[j].first == Ref(a) && h'[b].first == Ref(j)
    requires forall x | 0 <= x < |h| && x != b :: h'[x].first == h[x].first
    ensures forall k | 0 <= k < |order| + 1 :: InsertAt(order, i, j)[k] < |h'| && FirstOk(h', InsertAt(order, i, j), k)
  {
    var n := |order|;
    var o := InsertAt(order, i, j);
    InsertAtElements(order, i, j);
    forall k | 0 <= k < n + 1
      ensures o[k] < |h'| && FirstOk(h', o, k)
    {
      var s := Pred(n + 1, k);
      if k == i {
        if i == 0 {
          assert o[s] == order[n - 1];
        } else {
          assert o[s] == order[i - 1];
        }
      } else {
        var m := if k < i then k else k - 1;
        assert o[k] == order[m];
        if m == (if i < n then i else 0) {
          assert s == i;
        } else {
          assert order[m] != b;
          assert FirstOk(h, order, m);
          if s < i {
            assert o[s] == order[s];
          } else if s > i {
            assert o[s] == order[s - 1];
          }
        }
      }
    }
  }

  /** A node `j` spliced in at place `i`, between the nodes `a` and `b`
      that become its neighbours, keeps the ring closed in both
      directions. */
  lemma {:induction false} RingInsert(h: DHeap, order: seq<nat>, i: nat, h': DHeap, j: nat, a: nat, b: nat)
    requires Ring(h, order) && 1 <= |order| && i <= |order| && j == |h| && |h'| == |h| + 1
    requires a == order[Pred(|order|, i)] && b == order[if i < |order| then i else 0]
    requires h'[j].first == Ref(a) && h'[j].second == Ref(b)
    requires h'[a].second == Ref(j) && h'[b].first == Ref(j)
    requires forall x | 0 <= x < |h| && x != a :: h'[x].second == h[x].second
    requires forall x | 0 <= x < |h| && x != b :: h'[x].first == h[x].first
    ensures Ring(h', InsertAt(order, i, j))
  {
    assert j !in order by {
      forall k | 0 <= k < |order| ensures order[k] != j { }
    }
    SecondsAfterInsert(h, order, i, h', j, a, b);
    FirstsAfterInsert(h, order, i, h', j, a, b);
    InsertDistinct(order, i, j);
  }

  /** The `second` links after the node at place `p` is unlinked, its
      predecessor `a` now linking to its successor `b`. */
  lemma {:induction false} SecondsAfterRemove(h: DHeap, order: seq<nat>, p: nat, h': DHeap, a: nat, b: nat)
    requires Ring(h, order) && 2 <= |order| && p < |order| && |h'| == |h|
    requires a == order[Pred(|order|, p)] && b == order[Succ(|order|, p)]
    requires h'[a].second == Ref(b)
    requires forall x | 0 <= x < |h| && x != a :: h'[x].second == h[x].second
    ensures forall k | 0 <= k < |order| - 1 :: RemoveAt(order, p)[k] < |h'| && SecondOk(h', RemoveAt(order, p), k)
  {
    var n := |order|;
    var o := RemoveAt(order, p);
    RemoveAtElements(order, p);
    forall k | 0 <= k < n - 1
      ensures o[k] < |h'| && SecondOk(h', o, k)
    {
      var m := if k < p then k else k + 1;
      assert o[k] == order[m];
      var s := Succ(n - 1, k);
      var sm := if s < p then s else s + 1;
      assert o[s] == order[sm];
      if m == Pred(n, p) {
        if p == 0 {
          assert s == 0 && sm == 1;
        } else {
          assert k == p - 1;
        }
      } else {
        assert order[m] != a;
        assert SecondOk(h, order, m);
      }
    }
  }

  /** The `first` links after the node at place `p` is unlinked, its
      successor `b` now linking back to its predecessor `a`. */
  lemma {:induction false} FirstsAfterRemove(h: DHeap, order: seq<nat>, p: nat, h': DHeap, a: nat, b: nat)
    requires Ring(h, order) && 2 <= |order| && p < |order| && |h'| == |h|
    requires a == order[Pred(|order|, p)] && b == order[Succ(|order|, p)]
    requires h'[b].first == Ref(a)
    requires forall x | 0 <= x < |h| && x != b :: h'[x].first == h[x].first
    ensures forall k | 0 <= k < |order| - 1 :: RemoveAt(order, p)[k] < |h'| && FirstOk(h', RemoveAt(order, p), k)
  {
    var n := |order|;
    var o := RemoveAt(order, p);
    RemoveAtElements(order, p);
    forall k | 0 <= k < n - 1
      ensures o[k] < |h'| && FirstOk(h', o, k)
    {
      var m := if k < p then k else k + 1;
      assert o[k] == order[m];
      var s := Pred(n - 1, k);
      var sm := if s < p then s else s + 1;
      assert o[s] == order[sm];
      if m == Succ(n, p) {
        if p == n - 1 {
          assert k == 0 && s == n - 2;
        } else {
          assert k == p;
        }
      } else {
        assert order[m] != b;
        assert FirstOk(h, order, m);
      }
    }
  }

  /** Linking the neighbours of the node at place `p` to each other closes
      the ring over the other nodes. */
  lemma {:induction false} RingRemove(h: DHeap, order: seq<nat>, p: nat, h': DHeap, a: nat, b: nat)
    requires Ring(h, order) && 2 <= |order| && p < |order| && |h'| == |h|
    requires a == order[Pred(|order|, p)] && b == order[Succ(|order|, p)]
    requires h'[a].second == Ref(b) && h'[b].first == Ref(a)
    requires forall x | 0 <= x < |h| && x != a :: h'[x].second == h[x].second
    requires forall x | 0 <= x < |h| && x != b :: h'[x].first == h[x].first
    ensures Ring(h', RemoveAt(order, p))
  {
    SecondsAfterRemove(h, order, p, h', a, b);
    FirstsAfterRemove(h, order, p, h', a, b);
    RemoveDistinct(order, p);
  }

  /** The data after a new node holding `d` is spliced in at place `i`;
      no other node's data changes. */
  lemma {:induction false} DataInsert(h: DHeap, order: seq<nat>, i: nat, h': DHeap, d: Ptr)
    requires Ring(h, order) && i <= |order| && |h'| == |h| + 1 && h'[|h|].userdata == d
    requires forall x | 0 <= x < |h| :: h'[x].userdata == h[x].userdata
    ensures Data(h', InsertAt(order, i, |h|)) == InsertAt(Data(h, order), i, d)
  {
    var o := InsertAt(order, i, |h|);
    var s := InsertAt(Data(h, order), i, d);
    InsertAtElements(order, i, |h|);
    InsertAtElements(Data(h, order), i, d);
    forall k | 0 <= k < |o|
      ensures Data(h', o)[k] == s[k]
    {
      if k < i {
        assert o[k] == order[k];
      } else if k > i {
        assert o[k] == order[k - 1];
      }
    }
  }

  /** Relinking keeps every node's data. */
  lemma {:induction false} DataRemove(h: DHeap, order: seq<nat>, p: nat, h': DHeap)
    requires Ring(h, order) && p < |order| && |h'| == |h|
    requires forall i | 0 <= i < |h| :: h'[i].userdata == h[i].userdata
    ensures Data(h', RemoveAt(order, p)) == RemoveAt(Data(h, order), p)
  {
    var o := RemoveAt(order, p);
    RemoveAtElements(order, p);
    forall k | 0 <= k < |o|
      ensures Data(h', o)[k] == RemoveAt(Data(h, order), p)[k]
    {
      if k < p {
        assert o[k] == order[k];
      } else {
        assert o[k] == order[k + 1];
      }
    }
  }

  lemma {:induction false} OneNodeRing(h: DHeap, j: nat)
    requires j < |h| && h[j].first == Ref(j) && h[j].second == Ref(j)
    ensures Ring(h, [j])
  {
  }

  class CDLL {
    var nodes: DHeap
    var head: Link
    var size: nat
    /** The node indices from the head to the tail. */
    ghost var order: seq<nat>

    ghost predicate Valid()
      reads this
    {
      Ring(nodes, order) && size == |order| && head == FirstOf(order)
    }

    /** The user data from the head to the tail. */
    ghost function Contents(): seq<Ptr>
      reads this
    {
      Data(nodes, order)
    }

    /** `node` is one of the list's nodes. */
    ghost predicate Holds(node: Link)
      reads this
    {
      node.Ref? && node.index in order
    }

    /** The index in the list of one of its nodes. */
    ghost function Position(node: Link): (p: nat)
      reads this
      requires Valid() && Holds(node)
      ensures p < size && order[p] == node.index
    {
      IndexOf(order, node.index)
    }

    /** `GenUtils_CDLLCreate`: no head, size 0. */
    constructor ()
      ensures Valid() && Contents() == []
      ensures head == Nil && size == 0 && nodes == []
    {
      nodes := [];
      head := Nil;
      size := 0;
      order := [];
    }
  }

  /** The node at place `p` links forward to the node at the next place
      and back to the node at the previous one. */
  lemma {:induction false} LinksOfHeld(list: CDLL, node: Link, p: nat)
    requires list.Valid() && p < list.size && node == Ref(list.order[p])
    ensures node.index < |list.nodes|
    ensures list.nodes[node.index].second == Ref(list.order[Succ(list.size, p)])
    ensures list.nodes[node.index].first == Ref(list.order[Pred(list.size, p)])
  {
    assert SecondOk(list.nodes, list.order, p);
    assert FirstOk(list.nodes, list.order, p);
  }

  /** The invariant every operation keeps: from any node of the list,
      `second` then `first` leads back to it, and so does `first` then
      `second`. */
  lemma {:induction false} DoublyLinked(list: CDLL, node: Link)
    requires list.Valid() && list.Holds(node)
    ensures node.index < |list.nodes|
    ensures list.nodes[node.index].second.Ref? && list.nodes[node.index].first.Ref?
    ensures list.nodes[node.index].second.index < |list.nodes|
    ensures list.nodes[node.index].first.index < |list.nodes|
    ensures list.nodes[list.nodes[node.index].second.index].first == node
    ensures list.nodes[list.nodes[node.index].first.index].second == node
  {
    var n, p := list.size, list.Position(node);
    LinksOfHeld(list, node, p);
    SuccOfPred(n, p);
    assert FirstOk(list.nodes, list.order, Succ(n, p));
    assert SecondOk(list.nodes, list.order, Pred(n, p));
  }

  /** A node of the list always has a successor. */
  lemma {:induction false} HeldHasSuccessor(list: CDLL, node: Link)
    requires list.Valid() && list.Holds(node)
    ensures node.index < |list.nodes| && list.nodes[node.index].second != Nil
  {
    LinksOfHeld(list, node, list.Position(node));
  }

  /** The node at place `p` is the head iff `p` is the first place. */
  lemma {:induction false} HeadOfHeld(list: CDLL, node: Link, p: nat)
    requires list.Valid() && p < list.size && node == Ref(list.order[p])
    ensures node == list.head <==> p == 0
  {
  }

  // ---------------------------------------------------------------------
  // Queries

  function WasInit(list: CDLL?): (r: bool)
    ensures r <==> list != null
  {
    list != null
  }

  /** The number of elements; 0 for a NULL handle. */
  function GetSize(list: CDLL?): (n: nat)
    reads list
    requires list != null ==> list.Valid()
    ensures n == if list == null then 0 else |list.Contents()|
  {
    if WasInit(list) then list.size else 0
  }

  /** True for an initialized list without elements; false for a NULL
      handle. */
  function IsEmpty(list: CDLL?): (r: bool)
    reads list
    requires list != null ==> list.Valid()
    ensures r <==> list != null && list.Contents() == []
  {
    WasInit(list) && list.size == 0
  }

  /** The head node; NULL for a NULL handle or an empty list. */
  function Begin(list: CDLL?): (r: Link)
    reads list
    requires list != null ==> list.Valid()
    ensures r == Nil <==> list == null || list.size == 0
    ensures r != Nil ==> list.Holds(r) && list.Position(r) == 0
  {
    if !WasInit(list) then Nil else list.head
  }

  /** The tail node, reached as the head's `first`; NULL for a NULL handle
      or an empty list. */
  function End(list: CDLL?): (r: Link)
    reads list
    requires list != null ==> list.Valid()
    ensures r == Nil <==> list == null || list.size == 0
    ensures r != Nil ==> list.Holds(r) && list.Position(r) == list.size - 1
  {
    if !WasInit(list) || GetSize(list) == 0 then Nil
    else
      assert FirstOk(list.nodes, list.order, 0);
      list.nodes[list.head.index].first
  }

  // ---------------------------------------------------------------------
  // Insertion

  /** The one-node list holding `d`, linked to itself both ways. */
  method InsertFirst(list: CDLL, d: Ptr)
    modifies list
    requires list.Valid() && list.size == 0
    ensures list.Valid() && list.Contents() == [d] && list.size == 1
    ensures list.head == Ref(|old(list.nodes)|)
    ensures list.nodes == old(list.nodes) + [DoubleNode(d, list.head, list.head)]
  {
    var t := Ref(|list.nodes|);
    list.nodes := list.nodes + [DoubleNode(d, t, t)];
    list.head := t;
    list.size := 1;
    list.order := [t.index];
    OneNodeRing(list.nodes, t.index);
  }

  /** The non-empty case of `Insert`: a new node holding `d` goes in
      before the node at place `p`, between it and its `first`, and becomes
      the head if that node was the head. */
  method LinkBefore(list: CDLL, node: Link, d: Ptr, ghost p: nat)
    modifies list
    requires list.Valid() && p < list.size && node == Ref(list.order[p])
    ensures list.Valid() && list.size == old(list.size) + 1
    ensures list.Contents() == InsertAt(old(list.Contents()), p, d)
    ensures list.order == InsertAt(old(list.order), p, |old(list.nodes)|)
    ensures list.head == if p == 0 then Ref(|old(list.nodes)|) else old(list.head)
  {
    ghost var h, o, n := list.nodes, list.order, list.size;
    LinksOfHeld(list, node, p);
    HeadOfHeld(list, node, p);
    var t := Ref(|list.nodes|);
    var previous := list.nodes[node.index].first;
    // The new node links back to `node`'s `first` and forward to `node`;
    // then `first.second` and `node.first` are the new node.
    var h1 := list.nodes + [DoubleNode(d, previous, node)];
    var h2 := h1[previous.index := h1[previous.index].(second := t)];
    var h' := h2[node.index := h2[node.index].(first := t)];
    RingInsert(h, o, p, h', t.index, previous.index, node.index);
    DataInsert(h, o, p, h', d);
    InsertAtElements(o, p, t.index);
    list.nodes := h';
    if node == list.head {
      list.head := t;
    }
    list.size := list.size + 1;
    list.order := InsertAt(o, p, t.index);
  }

  /** The non-empty case of `InsertAfter`: a new node holding `d` goes in
      after the node at place `p`, between it and its `second`. */
  method LinkAfter(list: CDLL, node: Link, d: Ptr, ghost p: nat)
    modifies list
    requires list.Valid() && p < list.size && node == Ref(list.order[p])
    ensures list.Valid() && list.size == old(list.size) + 1
    ensures list.Contents() == InsertAt(old(list.Contents()), p + 1, d)
    ensures list.order == InsertAt(old(list.order), p + 1, |old(list.nodes)|)
    ensures list.head == old(list.head)
  {
    ghost var h, o, n := list.nodes, list.order, list.size;
    LinksOfHeld(list, node, p);
    var t := Ref(|list.nodes|);
    var next := list.nodes[node.index].second;
    // The new node links back to `node` and forward to `node`'s `second`;
    // then `node.second` and `second.first` are the new node.
    var h1 := list.nodes + [DoubleNode(d, node, next)];
    var h2 := h1[node.index := h1[node.index].(second := t)];
    var h' := h2[next.index := h2[next.index].(first := t)];
    assert Pred(n, p + 1) == p;
    assert next == Ref(o[if p + 1 < n then p + 1 else 0]);
    RingInsert(h, o, p + 1, h', t.index, node.index, next.index);
    DataInsert(h, o, p + 1, h', d);
    InsertAtElements(o, p + 1, t.index);
    list.nodes := h';
    list.size := list.size + 1;
    list.order := InsertAt(o, p + 1, t.index);
  }

  /** `GenUtils_CDLLInsert`: a new node holding `d` goes in before `node`,
      and becomes the head if `node` was the head. An empty list accepts
      any `node` and gets one node linked to itself; a non-empty one
      refuses a NULL `node`. */
  method Insert(list: CDLL?, node: Link, d: Ptr) returns (ok: bool)
    modifies list
    requires list != null ==> list.Valid() && (list.size > 0 ==> node == Nil || list.Holds(node))
    ensures list != null ==> list.Valid()
    ensures ok <==> list != null && (old(list.size) == 0 || node != Nil)
    ensures list != null && !ok ==> unchanged(list)
    ensures ok ==> list.size == old(list.size) + 1
    ensures ok && old(list.size) == 0 ==> list.Contents() == [d] && list.head == Ref(|old(list.nodes)|)
    ensures ok && old(list.size) > 0 ==>
      && list.Contents() == InsertAt(old(list.Contents()), old(list.Position(node)), d)
      && list.order == InsertAt(old(list.order), old(list.Position(node)), |old(list.nodes)|)
      && list.head == (if node == old(list.head) then Ref(|old(list.nodes)|) else old(list.head))
  {
    if list != null && list.size > 0 && node != Nil {
      HeldHasSuccessor(list, node);
      HeadOfHeld(list, node, list.Position(node));
    }
    if !WasInit(list) {
      return false;
    } else if GetSize(list) > 0 && (node == Nil || list.nodes[node.index].second == Nil) {
      return false;
    }
    if list.size == 0 {
      InsertFirst(list, d);
      return true;
    }
    LinkBefore(list, node, d, list.Position(node));
    return true;
  }

  /** `GenUtils_CDLLInsertAfter`: a new node holding `d` goes in after
      `node`; the head stays. An empty list accepts any `node` and gets one
      node linked to itself; a non-empty one refuses a NULL `node`. */
  method InsertAfter(list: CDLL?, node: Link, d: Ptr) returns (ok: bool)
    modifies list
    requires list != null ==> list.Valid() && (list.size > 0 ==> node == Nil || list.Holds(node))
    ensures list != null ==> list.Valid()
    ensures ok <==> list != null && (old(list.size) == 0 || node != Nil)
    ensures list != null && !ok ==> unchanged(list)
    ensures ok ==> list.size == old(list.size) + 1
    ensures ok && old(list.size) == 0 ==> list.Contents() == [d] && list.head == Ref(|old(list.nodes)|)
    ensures ok && old(list.size) > 0 ==>
      && list.Contents() == InsertAt(old(list.Contents()), old(list.Position(node)) + 1, d)
      && list.order == InsertAt(old(list.order), old(list.Position(node)) + 1, |old(list.nodes)|)
      && list.head == old(list.head)
  {
    if list != null && list.size > 0 && node != Nil {
      HeldHasSuccessor(list, node);
    }
    if !WasInit(list) {
      return false;
    } else if GetSize(list) > 0 && (node == Nil || list.nodes[node.index].second == Nil) {
      return false;
    }
    if list.size == 0 {
      InsertFirst(list, d);
      return true;
    }
    LinkAfter(list, node, d, list.Position(node));
    return true;
  }

  // ---------------------------------------------------------------------
  // Removal

  /** The list left empty (the removed record stays in the heap). */
  method Reset(list: CDLL)
    modifies list
    requires list.Valid() && list.size == 1
    ensures list.Valid() && list.Contents() == [] && list.order == []
    ensures list.head == Nil && list.size == 0 && list.nodes == old(list.nodes)
  {
    list.head := Nil;
    list.size := 0;
    list.order := [];
  }

  /** The node at place `p` unlinked from a list of two or more nodes: its
      `first` now links forward to its `second` and the other way round.
      The head is fixed beforehand by the caller. */
  method Unlink(list: CDLL, node: Link, ghost p: nat)
    modifies list
    requires Ring(list.nodes, list.order) && 2 <= |list.order| == list.size && p < list.size
    requires node == Ref(list.order[p]) && list.head == FirstOf(RemoveAt(list.order, p))
    ensures list.Valid()
    ensures list.order == RemoveAt(old(list.order), p)
    ensures list.Contents() == RemoveAt(old(list.Contents()), p)
    ensures list.size == old(list.size) - 1 && |list.nodes| == |old(list.nodes)|
    ensures list.head == old(list.head)
  {
    ghost var h, o, n := list.nodes, list.order, list.size;
    assert SecondOk(h, o, p) && FirstOk(h, o, p);
    var previous := list.nodes[node.index].first;
    var next := list.nodes[node.index].second;
    var h1 := list.nodes[previous.index := list.nodes[previous.index].(second := next)];
    var h' := h1[next.index := h1[next.index].(first := previous)];
    RingRemove(h, o, p, h', previous.index, next.index);
    DataRemove(h, o, p, h');
    list.nodes := h';
    list.size := list.size - 1;
    list.order := RemoveAt(o, p);
  }

  /** `GenUtils_CDLLRemove`: the node `node` leaves the list. A list of
      one node is reset whatever node is passed; otherwise the head
      advances if `node` was the head, and `node`'s neighbours are linked
      to each other. A NULL handle or node is refused unchanged. */
  method Remove(list: CDLL?, node: Link) returns (ok: bool)
    modifies list
    requires list != null ==> list.Valid() && (node == Nil || list.Holds(node))
    ensures list != null ==> list.Valid() && |list.nodes| == |old(list.nodes)|
    ensures ok <==> list != null && node != Nil
    ensures list != null && !ok ==> unchanged(list)
    ensures ok ==>
      && list.order == RemoveAt(old(list.order), old(list.Position(node)))
      && list.Contents() == RemoveAt(old(list.Contents()), old(list.Position(node)))
      && list.size == old(list.size) - 1
    ensures ok && old(list.size) == 1 ==> list.head == Nil
    ensures ok && old(list.size) > 1 ==>
      list.head == (if node == old(list.head) then old(list.nodes[node.index].second) else old(list.head))
  {
    if list != null && node != Nil {
      HeldHasSuccessor(list, node);
    }
    if !WasInit(list) || node == Nil || list.nodes[node.index].second == Nil {
      return false;
    } else if list.size == 1 {
      Reset(list);
    } else {
      ghost var p := list.Position(node);
      HeadOfHeld(list, node, p);
      LinksOfHeld(list, list.head, 0);
      RemoveAtElements(list.order, p);
      if node == list.head {
        list.head := list.nodes[list.head.index].second;
      }
      Unlink(list, node, p);
    }
    return true;
  }

  /** `GenUtils_CDLLRemoveAfter`: the `second` of `node` leaves the list,
      which is the head when `node` is the tail. A NULL node or handle is
      refused unchanged. */
  method RemoveAfter(list: CDLL?, node: Link) returns (ok: bool)
    modifies list
    requires list != null ==> list.Valid() && (node == Nil || list.Holds(node))
    ensures list != null ==> list.Valid() && |list.nodes| == |old(list.nodes)|
    ensures ok <==> list != null && node != Nil
    ensures list != null && !ok ==> unchanged(list)
    ensures ok ==>
      && list.order == RemoveAt(old(list.order), Succ(old(list.size), old(list.Position(node))))
      && list.Contents() == RemoveAt(old(list.Contents()), Succ(old(list.size), old(list.Position(node))))
      && list.size == old(list.size) - 1
    ensures ok && old(list.size) == 1 ==> list.head == Nil
    ensures ok && old(list.size) > 1 ==>
      list.head == (if Succ(old(list.size), old(list.Position(node))) == 0 then Ref(old(list.order)[1])
                    else old(list.head))
  {
    // Without a list, `node` belongs to no heap of the model; `Remove` on a
    // NULL handle fails whatever its `second` is.
    if node == Nil || !WasInit(list) {
      return false;
    }
    HeldHasSuccessor(list, node);
    if list.nodes[node.index].second == Nil {
      return false;
    }
    ghost var p := list.Position(node);
    LinksOfHeld(list, node, p);
    var next := list.nodes[node.index].second;
    assert list.Position(next) == Succ(list.size, p);
    if list.size > 1 {
      LinksOfHeld(list, list.head, 0);
    }
    ok := Remove(list, next);
  }

  // ---------------------------------------------------------------------
  // Both ends

  /** `GenUtils_CDLLPushBack`: `d` is appended, after the tail. */
  method PushBack(list: CDLL?, d: Ptr) returns (ok: bool)
    modifies list
    requires list != null ==> list.Valid()
    ensures list != null ==> list.Valid()
    ensures ok <==> list != null
    ensures ok ==> list.Contents() == old(list.Contents()) + [d]
  {
    ok := InsertAfter(list, End(list), d);
    if ok && old(list.size) > 0 {
      assert InsertAt(old(list.Contents()), old(list.size), d) == old(list.Contents()) + [d];
    }
  }

  /** `GenUtils_CDLLPushFront`: `d` is prepended, in a new head node. */
  method PushFront(list: CDLL?, d: Ptr) returns (ok: bool)
    modifies list
    requires list != null ==> list.Valid()
    ensures list != null ==> list.Valid()
    ensures ok <==> list != null
    ensures ok ==> list.Contents() == [d] + old(list.Contents())
  {
    ok := Insert(list, Begin(list), d);
    if ok && old(list.size) > 0 {
      assert InsertAt(old(list.Contents()), 0, d) == [d] + old(list.Contents());
    }
  }

  /** `GenUtils_CDLLPopBack`: the last element is removed and its data
      returned; NULL, and no change, when there is none. */
  method PopBack(list: CDLL?) returns (data: Ptr)
    modifies list
    requires list != null ==> list.Valid()
    ensures list != null ==> list.Valid()
    ensures data == if list == null || old(list.size) == 0 then Null else old(list.Contents())[old(list.size) - 1]
    ensures list != null && old(list.size) == 0 ==> unchanged(list)
    ensures list != null && old(list.size) > 0 ==> list.Contents() == old(list.Contents())[..old(list.size) - 1]
  {
    var node := End(list);
    data := if node == Nil then Null else list.nodes[node.index].userdata;
    var _ := Remove(list, node);
  }

  /** `GenUtils_CDLLPopBackBool`: the last element is removed; true iff
      there was one. */
  method PopBackBool(list: CDLL?) returns (ok: bool)
    modifies list
    requires list != null ==> list.Valid()
    ensures list != null ==> list.Valid()
    ensures ok <==> list != null && old(list.size) > 0
    ensures list != null && !ok ==> unchanged(list)
    ensures ok ==> list.Contents() == old(list.Contents())[..old(list.size) - 1]
  {
    ok := Remove(list, End(list));
  }

  /** `GenUtils_CDLLPopFront`: the first element is removed; true iff
      there was one. */
  method PopFront(list: CDLL?) returns (ok: bool)
    modifies list
    requires list != null ==> list.Valid()
    ensures list != null ==> list.Valid() && |list.nodes| == |old(list.nodes)|
    ensures ok <==> list != null && old(list.size) > 0
    ensures list != null && !ok ==> unchanged(list)
    ensures ok ==> list.Contents() == old(list.Contents())[1..]
  {
    ok := Remove(list, Begin(list));
  }

  /** `GenUtils_CDLLClear`: elements are popped from the front until none
      is left. */
  method Clear(list: CDLL?)
    modifies list
    requires list != null ==> list.Valid()
    ensures list != null ==> list.Valid() && list.Contents() == [] && list.head == Nil
    ensures GetSize(list) == 0
    ensures list != null ==> |list.nodes| == |old(list.nodes)|
  {
    while GetSize(list) > 0
      invariant list != null ==> list.Valid() && |list.nodes| == |old(list.nodes)|
      decreases GetSize(list)
    {
      var _ := PopFront(list);
    }
  }

  /** `GenUtils_CDLLIterate`: the calls made to a non-NULL visitor, one per
      element from the head along `second`, each with `extradata`. */
  method Iterate(list: CDLL?, extradata: Ptr, visitor: bool) returns (calls: seq<Visit>)
    requires list != null ==> list.Valid()
    ensures calls == if list == null || !visitor then [] else Visits(list.Contents(), extradata)
  {
    var current := Begin(list);
    var i := 0;
    calls := [];
    if !visitor {
      return;
    }
    while i < GetSize(list)
      invariant i <= GetSize(list)
      invariant list == null ==> calls == []
      invariant list != null && i < list.size ==> current == Ref(list.order[i])
      invariant list != null ==> calls == Visits(list.Contents()[..i], extradata)
    {
      calls := calls + [Visit(list.nodes[current.index].userdata, extradata)];
      assert SecondOk(list.nodes, list.order, i);
      i := i + 1;
      current := list.nodes[current.index].second;
    }
    assert list != null ==> list.Contents()[..i] == list.Contents();
  }
}
