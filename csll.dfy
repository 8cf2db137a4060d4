/** The circular singly linked list of `src/lib/GenUtils/CSLL.c`. A
    `GenUtils_CSLL` holds a head pointer, a tail pointer and a size; its
    nodes live in the heap `nodes`, and each `GenUtils_SingleNode` holds a
    user data pointer and `nextNode`. The last node links back to the
    first. Every operation takes a possibly-NULL handle, as the C functions
    do. */
module GenUtilsCSLL {
  import opened CTypes
  import opened Sequences
  import opened Rings

  datatype SingleNode = SingleNode(userdata: Ptr, nextNode: Link)

  type SHeap = seq<SingleNode>

  /** The nodes `order` (head first) are distinct records of `h`, and each
      one's `nextNode` is the next of them, the last one's the first. */
  ghost predicate Ring(h: SHeap, order: seq<nat>) {
    && (forall k | 0 <= k < |order| :: order[k] < |h|)
    && Distinct(order)
    && (forall k | 0 <= k < |order| :: LinkOk(h, order, k))
  }

  /** The node at place `k` of `order` links to the node at the next
      place. */
  ghost predicate LinkOk(h: SHeap, order: seq<nat>, k: nat)
    requires k < |order| && order[k] < |h|
  {
    h[order[k]].nextNode == Ref(order[Succ(|order|, k)])
  }

  function UserdataAt(h: SHeap, i: nat): Ptr {
    if i < |h| then h[i].userdata else Null
  }

  /** The user data along `order`. */
  ghost function Data(h: SHeap, order: seq<nat>): (s: seq<Ptr>)
    ensures |s| == |order|
    ensures forall k | 0 <= k < |order| :: s[k] == UserdataAt(h, order[k])
  {
    seq(|order|, k requires 0 <= k < |order| => UserdataAt(h, order[k]))
  }

  class CSLL {
    var nodes: SHeap
    var head: Link
    var tail: Link
    var size: nat
    /** The node indices from the head to the tail. */
    ghost var order: seq<nat>

    ghost predicate Valid()
      reads this
    {
      Ring(nodes, order) && size == |order| && head == FirstOf(order) && tail == LastOf(order)
    }

    /** The user data from the head to the tail. */
    ghost function Contents(): seq<Ptr>
      reads this
    {
      Data(nodes, order)
    }

    /** `node` is one of the list's nodes. */
    ghost predicate Holds(node: Link)
      reads this
    {
      node.Ref? && node.index in order
    }

    /** The index in the list of one of its nodes. */
    ghost function Position(node: Link): (p: nat)
      reads this
      requires Valid() && Holds(node)
      ensures p < size && order[p] == node.index
    {
      IndexOf(order, node.index)
    }

    /** `GenUtils_CSLLCreate`: no head, no tail, size 0. */
    constructor ()
      ensures Valid() && Contents() == []
      ensures head == Nil && tail == Nil && size == 0 && nodes == []
    {
      nodes := [];
      head := Nil;
      tail := Nil;
      size := 0;
      order := [];
    }
  }

  // ---------------------------------------------------------------------
  // The ring after one splice

  /** A node `j` spliced in after place `p` keeps the ring closed. */
  lemma {:induction false} RingInsert(h: SHeap, order: seq<nat>, p: nat, h': SHeap, j: nat)
    requires Ring(h, order) && p < |order| && j == |h| && |h'| == |h| + 1
    requires h'[order[p]].nextNode == Ref(j) && h'[j].nextNode == h[order[p]].nextNode
    requires forall i | 0 <= i < |h| && i != order[p] :: h'[i].nextNode == h[i].nextNode
    ensures Ring(h', InsertAt(order, p + 1, j))
  {
    var n := |order|;
    var o := InsertAt(order, p + 1, j);
    InsertAtElements(order, p + 1, j);
    assert j !in order by {
      forall k | 0 <= k < n ensures order[k] != j { }
    }
    forall k | 0 <= k < |o|
      ensures o[k] < |h'| && LinkOk(h', o, k)
    {
      if k < p {
        assert o[k] == order[k] && o[k + 1] == order[k + 1];
        assert LinkOk(h, order, k);
      } else if k == p {
      } else if k == p + 1 {
        assert LinkOk(h, order, p);
        if p + 1 < n {
          assert o[p + 2] == order[p + 1];
        } else {
          assert o[0] == order[0];
        }
      } else {
        assert o[k] == order[k - 1];
        assert LinkOk(h, order, k - 1);
        if k + 1 < |o| {
          assert o[k + 1] == order[k];
        } else {
          assert o[0] == order[0];
        }
      }
    }
    InsertDistinct(order, p + 1, j);
  }

  /** Linking the node before place `p` to the one after it closes the ring
      over the other nodes. */
  lemma {:induction false} RingRemove(h: SHeap, order: seq<nat>, p: nat, h': SHeap)
    requires Ring(h, order) && 2 <= |order| && p < |order| && |h'| == |h|
    requires h'[order[Pred(|order|, p)]].nextNode == h[order[p]].nextNode
    requires forall i | 0 <= i < |h| && i != order[Pred(|order|, p)] :: h'[i].nextNode == h[i].nextNode
    ensures Ring(h', RemoveAt(order, p))
  {
    var n := |order|;
    var q := Pred(n, p);
    var o := RemoveAt(order, p);
    RemoveAtElements(order, p);
    forall k | 0 <= k < |o|
      ensures o[k] < |h'| && LinkOk(h', o, k)
    {
      var m := if k < p then k else k + 1;
      assert o[k] == order[m];
      var s := Succ(|o|, k);
      var sm := if s < p then s else s + 1;
      assert o[s] == order[sm];
      if m == q {
        assert LinkOk(h, order, p);
        if p == 0 {
          assert s == 0 && sm == 1;
        } else {
          assert k == p - 1;
        }
      } else {
        assert order[m] != order[q];
        assert LinkOk(h, order, m);
      }
    }
    RemoveDistinct(order, p);
  }

  /** The data after an insertion that gives the new node `d`. */
  lemma {:induction false} DataInsertAfter(h: SHeap, order: seq<nat>, p: nat, h': SHeap, d: Ptr)
    requires Ring(h, order) && p < |order| && |h'| == |h| + 1 && h'[|h|].userdata == d
    requires forall i | 0 <= i < |h| :: h'[i].userdata == h[i].userdata
    ensures Data(h', InsertAt(order, p + 1, |h|)) == InsertAt(Data(h, order), p + 1, d)
  {
    var o := InsertAt(order, p + 1, |h|);
    var s := InsertAt(Data(h, order), p + 1, d);
    InsertAtElements(order, p + 1, |h|);
    InsertAtElements(Data(h, order), p + 1, d);
    forall k | 0 <= k < |o|
      ensures Data(h', o)[k] == s[k]
    {
      if k < p + 1 {
        assert o[k] == order[k];
      } else if k > p + 1 {
        assert o[k] == order[k - 1];
      }
    }
  }

  /** The data after an insertion that moves the data of the node at `p`
      into the new node and gives the node at `p` the data `d`. */
  lemma {:induction false} DataInsertBefore(h: SHeap, order: seq<nat>, p: nat, h': SHeap, d: Ptr)
    requires Ring(h, order) && p < |order| && |h'| == |h| + 1
    requires h'[order[p]].userdata == d && h'[|h|].userdata == h[order[p]].userdata
    requires forall i | 0 <= i < |h| && i != order[p] :: h'[i].userdata == h[i].userdata
    ensures Data(h', InsertAt(order, p + 1, |h|)) == InsertAt(Data(h, order), p, d)
  {
    var o := InsertAt(order, p + 1, |h|);
    var s := InsertAt(Data(h, order), p, d);
    InsertAtElements(order, p + 1, |h|);
    InsertAtElements(Data(h, order), p, d);
    forall k | 0 <= k < |o|
      ensures Data(h', o)[k] == s[k]
    {
      if k < p {
        assert o[k] == order[k];
      } else if k > p + 1 {
        assert o[k] == order[k - 1];
      }
    }
  }

  /** Relinking keeps every node's data. */
  lemma {:induction false} DataRemove(h: SHeap, order: seq<nat>, p: nat, h': SHeap)
    requires Ring(h, order) && p < |order| && |h'| == |h|
    requires forall i | 0 <= i < |h| :: h'[i].userdata == h[i].userdata
    ensures Data(h', RemoveAt(order, p)) == RemoveAt(Data(h, order), p)
  {
    var o := RemoveAt(order, p);
    RemoveAtElements(order, p);
    forall k | 0 <= k < |o|
      ensures Data(h', o)[k] == RemoveAt(Data(h, order), p)[k]
    {
      if k < p {
        assert o[k] == order[k];
      } else {
        assert o[k] == order[k + 1];
      }
    }
  }

  lemma {:induction false} OneNodeRing(h: SHeap, j: nat)
    requires j < |h| && h[j].nextNode == Ref(j)
    ensures Ring(h, [j])
  {
  }

  /** A node of the list links to the node at the next place. */
  lemma {:induction false} NextOfHeld(list: CSLL, node: Link)
    requires list.Valid() && list.Holds(node)
    ensures list.nodes[node.index].nextNode == Ref(list.order[Succ(list.size, list.Position(node))])
  {
    assert LinkOk(list.nodes, list.order, list.Position(node));
  }

  /** The node at place `p` is the head iff `p` is the first place, and the
      tail iff it is the last. */
  lemma {:induction false} EndsOfHeld(list: CSLL, node: Link, p: nat)
    requires list.Valid() && p < list.size && node == Ref(list.order[p])
    ensures node == list.head <==> p == 0
    ensures node == list.tail <==> p == list.size - 1
  {
  }

  /** A node of the list always has a successor. */
  lemma {:induction false} HeldHasSuccessor(list: CSLL, node: Link)
    requires list.Valid() && list.Holds(node)
    ensures node.index < |list.nodes| && list.nodes[node.index].nextNode != Nil
  {
    NextOfHeld(list, node);
  }

  /** The tail links back to the head. */
  lemma {:induction false} TailLinksToHead(list: CSLL)
    requires list.Valid() && list.size > 0
    ensures list.tail.Ref? && list.tail.index < |list.nodes|
    ensures list.nodes[list.tail.index].nextNode == list.head
  {
    assert LinkOk(list.nodes, list.order, list.size - 1);
  }

  // ---------------------------------------------------------------------
  // Queries

  function WasInit(list: CSLL?): (r: bool)
    ensures r <==> list != null
  {
    list != null
  }

  /** The number of elements; 0 for a NULL handle. */
  function GetSize(list: CSLL?): (n: nat)
    reads list
    requires list != null ==> list.Valid()
    ensures n == if list == null then 0 else |list.Contents()|
  {
    if WasInit(list) then list.size else 0
  }

  /** True for an initialized list without elements; false for a NULL
      handle. */
  function IsEmpty(list: CSLL?): (r: bool)
    reads list
    requires list != null ==> list.Valid()
    ensures r <==> list != null && list.Contents() == []
  {
    WasInit(list) && list.size == 0
  }

  /** The head node; NULL for a NULL handle or an empty list. */
  function Begin(list: CSLL?): (r: Link)
    reads list
    requires list != null ==> list.Valid()
    ensures r == Nil <==> list == null || list.size == 0
    ensures r != Nil ==> list.Holds(r) && list.Position(r) == 0
  {
    if !WasInit(list) then Nil else list.head
  }

  /** The tail node; NULL for a NULL handle or an empty list. */
  function End(list: CSLL?): (r: Link)
    reads list
    requires list != null ==> list.Valid()
    ensures r == Nil <==> list == null || list.size == 0
    ensures r != Nil ==> list.Holds(r) && list.Position(r) == list.size - 1
  {
    if !WasInit(list) then Nil else list.tail
  }

  // ---------------------------------------------------------------------
  // Insertion

  /** The one-node list holding `d`, linked to itself. */
  method InsertFirst(list: CSLL, d: Ptr)
    modifies list
    requires list.Valid() && list.size == 0
    ensures list.Valid() && list.Contents() == [d] && list.size == 1
    ensures list.head == list.tail == Ref(|old(list.nodes)|)
    ensures list.nodes == old(list.nodes) + [SingleNode(d, list.head)]
  {
    var t := Ref(|list.nodes|);
    list.nodes := list.nodes + [SingleNode(d, t)];
    list.head := t;
    list.tail := t;
    list.size := 1;
    list.order := [t.index];
    OneNodeRing(list.nodes, t.index);
  }

  /** The non-empty case of `Insert`: a new node after the node at place
      `p` takes over that node's data and successor, and the node at `p`
      holds `d`. */
  method LinkBefore(list: CSLL, node: Link, d: Ptr, ghost p: nat)
    modifies list
    requires list.Valid() && p < list.size && node == Ref(list.order[p])
    ensures list.Valid() && list.size == old(list.size) + 1
    ensures list.Contents() == InsertAt(old(list.Contents()), p, d)
    ensures list.order == InsertAt(old(list.order), p + 1, |old(list.nodes)|)
    ensures |list.nodes| == |old(list.nodes)| + 1 && list.nodes[node.index].userdata == d
    ensures list.head == old(list.head)
    ensures list.tail == if node == old(list.tail) then Ref(|old(list.nodes)|) else old(list.tail)
  {
    ghost var h, o := list.nodes, list.order;
    EndsOfHeld(list, node, p);
    EndsAfterInsert(o, p, |h|);
    var t := Ref(|list.nodes|);
    var record := list.nodes[node.index];
    // The new node takes the data and the successor of `node`, which then
    // links to it and holds `d`.
    var h' := (list.nodes + [SingleNode(record.userdata, record.nextNode)])[node.index := SingleNode(d, t)];
    RingInsert(h, o, p, h', t.index);
    DataInsertBefore(h, o, p, h', d);
    list.nodes := h';
    list.size := list.size + 1;
    if node == list.tail {
      list.tail := t;
    }
    list.order := InsertAt(o, p + 1, t.index);
  }

  /** The non-empty case of `InsertAfter`: a new node holding `d` after the
      node at place `p`. */
  method LinkAfter(list: CSLL, node: Link, d: Ptr, ghost p: nat)
    modifies list
    requires list.Valid() && p < list.size && node == Ref(list.order[p])
    ensures list.Valid() && list.size == old(list.size) + 1
    ensures list.Contents() == InsertAt(old(list.Contents()), p + 1, d)
    ensures list.order == InsertAt(old(list.order), p + 1, |old(list.nodes)|)
    ensures list.head == old(list.head)
    ensures list.tail == if node == old(list.tail) then Ref(|old(list.nodes)|) else old(list.tail)
  {
    ghost var h, o := list.nodes, list.order;
    EndsOfHeld(list, node, p);
    EndsAfterInsert(o, p, |h|);
    var t := Ref(|list.nodes|);
    var record := list.nodes[node.index];
    var h' := (list.nodes + [SingleNode(d, record.nextNode)])[node.index := record.(nextNode := t)];
    RingInsert(h, o, p, h', t.index);
    DataInsertAfter(h, o, p, h', d);
    list.nodes := h';
    list.size := list.size + 1;
    if node == list.tail {
      list.tail := t;
    }
    list.order := InsertAt(o, p + 1, t.index);
  }

  /** `GenUtils_CSLLInsert`: `d` goes in at the place of `node`. The new
      node takes `node`'s data and successor and becomes `node`'s
      successor, and `node` itself holds `d`. An empty list accepts any
      `node` and gets one self-linked node; a non-empty one refuses a NULL
      `node`. */
  method Insert(list: CSLL?, node: Link, d: Ptr) returns (ok: bool)
    modifies list
    requires list != null ==> list.Valid() && (list.size > 0 ==> node == Nil || list.Holds(node))
    ensures list != null ==> list.Valid()
    ensures ok <==> list != null && (old(list.size) == 0 || node != Nil)
    ensures list != null && !ok ==> unchanged(list)
    ensures ok ==> list.size == old(list.size) + 1
    ensures ok && old(list.size) == 0 ==>
      && list.Contents() == [d] && list.head == list.tail == Ref(|old(list.nodes)|)
      && list.nodes[list.head.index].nextNode == list.head
    ensures ok && old(list.size) > 0 ==>
      && list.Contents() == InsertAt(old(list.Contents()), old(list.Position(node)), d)
      && list.order == InsertAt(old(list.order), old(list.Position(node)) + 1, |old(list.nodes)|)
      && |list.nodes| == |old(list.nodes)| + 1 && list.nodes[node.index].userdata == d
      && list.head == old(list.head)
      && list.tail == if node == old(list.tail) then Ref(|old(list.nodes)|) else old(list.tail)
  {
    if list != null && list.size > 0 && node != Nil {
      HeldHasSuccessor(list, node);
    }
    if !WasInit(list) {
      return false;
    } else if GetSize(list) > 0 && (node == Nil || list.nodes[node.index].nextNode == Nil) {
      return false;
    }
    if list.size == 0 {
      InsertFirst(list, d);
      return true;
    }
    LinkBefore(list, node, d, list.Position(node));
    return true;
  }

  /** `GenUtils_CSLLInsertAfter`: a new node holding `d` goes in after
      `node`, and becomes the tail if `node` was the tail. An empty list
      accepts any `node` and gets one self-linked node; a non-empty one
      refuses a NULL `node`. */
  method InsertAfter(list: CSLL?, node: Link, d: Ptr) returns (ok: bool)
    modifies list
    requires list != null ==> list.Valid() && (list.size > 0 ==> node == Nil || list.Holds(node))
    ensures list != null ==> list.Valid()
    ensures ok <==> list != null && (old(list.size) == 0 || node != Nil)
    ensures list != null && !ok ==> unchanged(list)
    ensures ok ==> list.size == old(list.size) + 1
    ensures ok && old(list.size) == 0 ==>
      && list.Contents() == [d] && list.head == list.tail == Ref(|old(list.nodes)|)
      && list.nodes[list.head.index].nextNode == list.head
    ensures ok && old(list.size) > 0 ==>
      && list.Contents() == InsertAt(old(list.Contents()), old(list.Position(node)) + 1, d)
      && list.order == InsertAt(old(list.order), old(list.Position(node)) + 1, |old(list.nodes)|)
      && list.head == old(list.head)
      && list.tail == if node == old(list.tail) then Ref(|old(list.nodes)|) else old(list.tail)
  {
    if !WasInit(list) {
      return false;
    } else if GetSize(list) > 0 && node == Nil {
      return false;
    }
    if list.size == 0 {
      InsertFirst(list, d);
      return true;
    }
    LinkAfter(list, node, d, list.Position(node));
    return true;
  }

  // ---------------------------------------------------------------------
  // Removal

  /** The list left empty (the removed record stays in the heap). */
  method Reset(list: CSLL)
    modifies list
    requires list.Valid() && list.size == 1
    ensures list.Valid() && list.Contents() == [] && list.order == []
    ensures list.head == Nil && list.tail == Nil && list.size == 0 && list.nodes == old(list.nodes)
  {
    list.head := Nil;
    list.tail := Nil;
    list.size := 0;
    list.order := [];
  }

  /** The node at place `p` unlinked from a list of two or more nodes, its
      predecessor `current` now linking to its successor; the head and tail
      fixes done beforehand by the caller. */
  method Unlink(list: CSLL, current: Link, node: Link, ghost p: nat)
    modifies list
    requires Ring(list.nodes, list.order) && 2 <= |list.order| == list.size && p < list.size
    requires node == Ref(list.order[p]) && current == Ref(list.order[Pred(list.size, p)])
    requires list.head == FirstOf(RemoveAt(list.order, p)) && list.tail == LastOf(RemoveAt(list.order, p))
    ensures list.Valid()
    ensures list.order == RemoveAt(old(list.order), p)
    ensures list.Contents() == RemoveAt(old(list.Contents()), p)
    ensures list.size == old(list.size) - 1 && |list.nodes| == |old(list.nodes)|
    ensures list.head == old(list.head) && list.tail == old(list.tail)
  {
    ghost var h := list.nodes;
    list.nodes := list.nodes[current.index := list.nodes[current.index].(nextNode := list.nodes[node.index].nextNode)];
    list.size := list.size - 1;
    RingRemove(h, list.order, p, list.nodes);
    DataRemove(h, list.order, p, list.nodes);
    list.order := RemoveAt(list.order, p);
  }

  /** The node whose `nextNode` is `node`, found by walking from the tail;
      it is the node at the place before `node`'s. */
  method FindPredecessor(list: CSLL, node: Link) returns (current: Link)
    requires list.Valid() && list.size >= 2 && list.Holds(node)
    ensures current == Ref(list.order[Pred(list.size, list.Position(node))])
  {
    var n := list.size;
    ghost var p := list.Position(node);
    ghost var q := Pred(n, p);
    assert Succ(n, q) == p;
    current := list.tail;
    ghost var k := n - 1;
    while list.nodes[current.index].nextNode != node
      invariant 0 <= k < n && current == Ref(list.order[k])
      invariant k == n - 1 || k <= q
      decreases if k <= q then q - k else n
    {
      assert LinkOk(list.nodes, list.order, k);
      assert Succ(n, k) != p;
      current := list.nodes[current.index].nextNode;
      k := Succ(n, k);
    }
    assert LinkOk(list.nodes, list.order, k);
    assert list.order[Succ(n, k)] == list.order[p];
  }

  /** `GenUtils_CSLLRemove`: the node `node` leaves the list. A list of
      one node is reset whatever node is passed; otherwise the predecessor
      found from the tail is linked to `node`'s successor, the head
      advances if `node` was the head, and the tail moves back if `node`
      was the tail. A NULL handle or node is refused unchanged. */
  method Remove(list: CSLL?, node: Link) returns (ok: bool)
    modifies list
    requires list != null ==> list.Valid() && (node == Nil || list.Holds(node))
    ensures list != null ==> list.Valid() && |list.nodes| == |old(list.nodes)|
    ensures ok <==> list != null && node != Nil
    ensures list != null && !ok ==> unchanged(list)
    ensures ok ==>
      && list.order == RemoveAt(old(list.order), old(list.Position(node)))
      && list.Contents() == RemoveAt(old(list.Contents()), old(list.Position(node)))
      && list.size == old(list.size) - 1
    ensures ok && old(list.size) == 1 ==> list.head == Nil && list.tail == Nil
    ensures ok && old(list.size) > 1 ==>
      list.head == (if node == old(list.head) then old(list.nodes[node.index].nextNode) else old(list.head))
    ensures ok && old(list.size) > 1 ==>
      list.tail == (if node == old(list.tail) then Ref(old(list.order)[Pred(old(list.size), old(list.Position(node)))])
                    else old(list.tail))
  {
    if list != null && node != Nil {
      HeldHasSuccessor(list, node);
    }
    if !WasInit(list) || node == Nil || list.nodes[node.index].nextNode == Nil {
      return false;
    } else if list.size == 1 {
      Reset(list);
    } else {
      ghost var p := list.Position(node);
      NextOfHeld(list, list.head);
      EndsOfHeld(list, node, p);
      var current := FindPredecessor(list, node);
      if node == list.head {
        list.head := list.nodes[list.head.index].nextNode;
      } else if node == list.tail {
        list.tail := current;
      }
      Unlink(list, current, node, p);
    }
    return true;
  }

  /** `GenUtils_CSLLRemoveAfter`: the successor of `node` leaves the list,
      which is the head when `node` is the tail. A list of one node is
      reset. A NULL handle or node is refused unchanged. */
  method RemoveAfter(list: CSLL?, node: Link) returns (ok: bool)
    modifies list
    requires list != null ==> list.Valid() && (node == Nil || list.Holds(node))
    ensures list != null ==> list.Valid() && |list.nodes| == |old(list.nodes)|
    ensures ok <==> list != null && node != Nil
    ensures list != null && !ok ==> unchanged(list)
    ensures ok ==>
      && list.order == RemoveAt(old(list.order), Succ(old(list.size), old(list.Position(node))))
      && list.Contents() == RemoveAt(old(list.Contents()), Succ(old(list.size), old(list.Position(node))))
      && list.size == old(list.size) - 1
    ensures ok && old(list.size) == 1 ==> list.head == Nil && list.tail == Nil
    ensures ok && old(list.size) > 1 ==>
      list.head == (if node == old(list.tail) then Ref(old(list.order)[1]) else old(list.head))
    ensures ok && old(list.size) > 1 ==>
      list.tail == (if Succ(old(list.size), old(list.Position(node))) == old(list.size) - 1 then node
                    else old(list.tail))
  {
    if list != null && node != Nil {
      HeldHasSuccessor(list, node);
    }
    if !WasInit(list) || node == Nil || list.nodes[node.index].nextNode == Nil {
      return false;
    } else if list.size == 1 {
      Reset(list);
      return true;
    } else {
      ghost var t := Succ(list.size, list.Position(node));
      NextOfHeld(list, node);
      var current := node;
      var target := list.nodes[node.index].nextNode;
      assert Pred(list.size, t) == list.Position(node);
      NextOfHeld(list, list.head);
      EndsOfHeld(list, target, t);
      if target == list.tail {
        list.tail := current;
      } else if target == list.head {
        list.head := list.nodes[list.head.index].nextNode;
      }
      Unlink(list, current, target, t);
    }
    return true;
  }

  // ---------------------------------------------------------------------
  // Both ends

  /** `GenUtils_CSLLPushBack`: `d` is appended. */
  method PushBack(list: CSLL?, d: Ptr) returns (ok: bool)
    modifies list
    requires list != null ==> list.Valid()
    ensures list != null ==> list.Valid()
    ensures ok <==> list != null
    ensures ok ==> list.Contents() == old(list.Contents()) + [d]
  {
    ok := InsertAfter(list, End(list), d);
    if ok && old(list.size) > 0 {
      assert InsertAt(old(list.Contents()), old(list.size), d) == old(list.Contents()) + [d];
    }
  }

  /** `GenUtils_CSLLPushFront`: `d` is prepended, held by the old head
      node. */
  method PushFront(list: CSLL?, d: Ptr) returns (ok: bool)
    modifies list
    requires list != null ==> list.Valid()
    ensures list != null ==> list.Valid()
    ensures ok <==> list != null
    ensures ok ==> list.Contents() == [d] + old(list.Contents())
  {
    ok := Insert(list, Begin(list), d);
    if ok && old(list.size) > 0 {
      assert InsertAt(old(list.Contents()), 0, d) == [d] + old(list.Contents());
    }
  }

  /** `GenUtils_CSLLPopBack`: the last element is removed and its data
      returned; NULL, and no change, when there is none. */
  method PopBack(list: CSLL?) returns (data: Ptr)
    modifies list
    requires list != null ==> list.Valid()
    ensures list != null ==> list.Valid()
    ensures data == if list == null || old(list.size) == 0 then Null else old(list.Contents())[old(list.size) - 1]
    ensures list != null && old(list.size) == 0 ==> unchanged(list)
    ensures list != null && old(list.size) > 0 ==> list.Contents() == old(list.Contents())[..old(list.size) - 1]
  {
    var node := End(list);
    data := if node == Nil then Null else list.nodes[node.index].userdata;
    var _ := Remove(list, node);
  }

  /** `GenUtils_CSLLPopBackBool`: the last element is removed; true iff
      there was one. */
  method PopBackBool(list: CSLL?) returns (ok: bool)
    modifies list
    requires list != null ==> list.Valid()
    ensures list != null ==> list.Valid()
    ensures ok <==> list != null && old(list.size) > 0
    ensures list != null && !ok ==> unchanged(list)
    ensures ok ==> list.Contents() == old(list.Contents())[..old(list.size) - 1]
  {
    ok := Remove(list, End(list));
  }

  /** `GenUtils_CSLLPopFront`: the first element is removed and its data
      returned; NULL, and no change, when there is none. */
  method PopFront(list: CSLL?) returns (data: Ptr)
    modifies list
    requires list != null ==> list.Valid()
    ensures list != null ==> list.Valid() && |list.nodes| == |old(list.nodes)|
    ensures data == if list == null || old(list.size) == 0 then Null else old(list.Contents())[0]
    ensures list != null && old(list.size) == 0 ==> unchanged(list)
    ensures list != null && old(list.size) > 0 ==> list.Contents() == old(list.Contents())[1..]
  {
    var node := Begin(list);
    data := if node == Nil then Null else list.nodes[node.index].userdata;
    var _ := Remove(list, node);
  }

  /** `GenUtils_CSLLPopFrontBool`: the first element is removed; true iff
      there was one. */
  method PopFrontBool(list: CSLL?) returns (ok: bool)
    modifies list
    requires list != null ==> list.Valid()
    ensures list != null ==> list.Valid() && |list.nodes| == |old(list.nodes)|
    ensures ok <==> list != null && old(list.size) > 0
    ensures list != null && !ok ==> unchanged(list)
    ensures ok ==> list.Contents() == old(list.Contents())[1..]
  {
    ok := Remove(list, Begin(list));
  }

  /** `GenUtils_CSLLClear`: elements are popped from the front until none
      is left. */
  method Clear(list: CSLL?)
    modifies list
    requires list != null ==> list.Valid()
    ensures list != null ==> list.Valid() && list.Contents() == [] && list.head == Nil && list.tail == Nil
    ensures GetSize(list) == 0
    ensures list != null ==> |list.nodes| == |old(list.nodes)|
  {
    while GetSize(list) > 0
      invariant list != null ==> list.Valid() && |list.nodes| == |old(list.nodes)|
      decreases GetSize(list)
    {
      var _ := PopFront(list);
    }
  }

  /** `GenUtils_CSLLIterate`: the calls made to a non-NULL visitor, one per
      element from the head along `nextNode`, each with `extradata`. */
  method Iterate(list: CSLL?, extradata: Ptr, visitor: bool) returns (calls: seq<Visit>)
    requires list != null ==> list.Valid()
    ensures calls == if list == null || !visitor then [] else Visits(list.Contents(), extradata)
  {
    var current := Begin(list);
    var i := 0;
    calls := [];
    if !visitor {
      return;
    }
    while i < GetSize(list)
      invariant i <= GetSize(list)
      invariant list == null ==> calls == []
      invariant list != null && i < list.size ==> current == Ref(list.order[i])
      invariant list != null ==> calls == Visits(list.Contents()[..i], extradata)
    {
      calls := calls + [Visit(list.nodes[current.index].userdata, extradata)];
      assert LinkOk(list.nodes, list.order, i);
      i := i + 1;
      current := list.nodes[current.index].nextNode;
    }
    assert list != null ==> list.Contents()[..i] == list.Contents();
  }
}
