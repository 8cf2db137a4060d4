/** The circular singly linked list of `src/lib/Utils/Utils_CSLL.c`. Its
    code is that of `src/lib/GenUtils/CSLL.c` under the `Utils_` prefix,
    so the list, its nodes and its splicing are those of `GenUtilsCSLL`;
    only the API differs: the pops return whether a node was removed rather
    than its data, and there is no `Iterate`. */
module UtilsCSLL {
  import opened CTypes
  import opened Sequences
  import opened DriverStages
  import opened Rings
  import G = GenUtilsCSLL

  function WasInit(list: G.CSLL?): (r: bool)
    ensures r <==> list != null
  {
    G.WasInit(list)
  }

  /** The number of elements; 0 for a NULL handle. */
  function GetSize(list: G.CSLL?): (n: nat)
    reads list
    requires list != null ==> list.Valid()
    ensures n == if list == null then 0 else |list.Contents()|
  {
    G.GetSize(list)
  }

  /** True for an initialized list without elements; false for a NULL
      handle. */
  function IsEmpty(list: G.CSLL?): (r: bool)
    reads list
    requires list != null ==> list.Valid()
    ensures r <==> list != null && list.Contents() == []
  {
    G.IsEmpty(list)
  }

  /** The head node; NULL for a NULL handle or an empty list. */
  function Begin(list: G.CSLL?): (r: Link)
    reads list
    requires list != null ==> list.Valid()
    ensures r == Nil <==> list == null || list.size == 0
    ensures r != Nil ==> list.Holds(r) && list.Position(r) == 0
  {
    G.Begin(list)
  }

  /** The tail node; NULL for a NULL handle or an empty list. */
  function End(list: G.CSLL?): (r: Link)
    reads list
    requires list != null ==> list.Valid()
    ensures r == Nil <==> list == null || list.size == 0
    ensures r != Nil ==> list.Holds(r) && list.Position(r) == list.size - 1
  {
    G.End(list)
  }

  /** `Utils_CSLLInsert`: `d` goes in at the place of `node`, which keeps
      its identity and holds `d`. */
  method Insert(list: G.CSLL?, node: Link, d: Ptr) returns (ok: bool)
    modifies list
    requires list != null ==> list.Valid() && (list.size > 0 ==> node == Nil || list.Holds(node))
    ensures list != null ==> list.Valid()
    ensures ok <==> list != null && (old(list.size) == 0 || node != Nil)
    ensures list != null && !ok ==> unchanged(list)
    ensures ok ==> list.size == old(list.size) + 1
    ensures ok && old(list.size) == 0 ==>
      && list.Contents() == [d] && list.head == list.tail == Ref(|old(list.nodes)|)
      && list.nodes[list.head.index].nextNode == list.head
    ensures ok && old(list.size) > 0 ==>
      && list.Contents() == InsertAt(old(list.Contents()), old(list.Position(node)), d)
      && list.order == InsertAt(old(list.order), old(list.Position(node)) + 1, |old(list.nodes)|)
      && |list.nodes| == |old(list.nodes)| + 1 && list.nodes[node.index].userdata == d
      && list.head == old(list.head)
      && list.tail == if node == old(list.tail) then Ref(|old(list.nodes)|) else old(list.tail)
  {
    ok := G.Insert(list, node, d);
  }

  /** `Utils_CSLLInsertAfter`: a new node holding `d` goes in after `node`,
      and becomes the tail if `node` was the tail. */
  method InsertAfter(list: G.CSLL?, node: Link, d: Ptr) returns (ok: bool)
    modifies list
    requires list != null ==> list.Valid() && (list.size > 0 ==> node == Nil || list.Holds(node))
    ensures list != null ==> list.Valid()
    ensures ok <==> list != null && (old(list.size) == 0 || node != Nil)
    ensures list != null && !ok ==> unchanged(list)
    ensures ok ==> list.size == old(list.size) + 1
    ensures ok && old(list.size) == 0 ==>
      && list.Contents() == [d] && list.head == list.tail == Ref(|old(list.nodes)|)
      && list.nodes[list.head.index].nextNode == list.head
    ensures ok && old(list.size) > 0 ==>
      && list.Contents() == InsertAt(old(list.Contents()), old(list.Position(node)) + 1, d)
      && list.order == InsertAt(old(list.order), old(list.Position(node)) + 1, |old(list.nodes)|)
      && list.head == old(list.head)
      && list.tail == if node == old(list.tail) then Ref(|old(list.nodes)|) else old(list.tail)
  {
    ok := G.InsertAfter(list, node, d);
  }

  /** `Utils_CSLLRemove`: the node `node` leaves the list, with the head
      and tail fixed up. */
  method Remove(list: G.CSLL?, node: Link) returns (ok: bool)
    modifies list
    requires list != null ==> list.Valid() && (node == Nil || list.Holds(node))
    ensures list != null ==> list.Valid() && |list.nodes| == |old(list.nodes)|
    ensures ok <==> list != null && node != Nil
    ensures list != null && !ok ==> unchanged(list)
    ensures ok ==>
      && list.order == RemoveAt(old(list.order), old(list.Position(node)))
      && list.Contents() == RemoveAt(old(list.Contents()), old(list.Position(node)))
      && list.size == old(list.size) - 1
    ensures ok && old(list.size) == 1 ==> list.head == Nil && list.tail == Nil
    ensures ok && old(list.size) > 1 ==>
      list.head == (if node == old(list.head) then old(list.nodes[node.index].nextNode) else old(list.head))
    ensures ok && old(list.size) > 1 ==>
      list.tail == (if node == old(list.tail) then Ref(old(list.order)[Pred(old(list.size), old(list.Position(node)))])
                    else old(list.tail))
  {
    ok := G.Remove(list, node);
  }

  /** `Utils_CSLLRemoveAfter`: the successor of `node` leaves the list. */
  method RemoveAfter(list: G.CSLL?, node: Link) returns (ok: bool)
    modifies list
    requires list != null ==> list.Valid() && (node == Nil || list.Holds(node))
    ensures list != null ==> list.Valid() && |list.nodes| == |old(list.nodes)|
    ensures ok <==> list != null && node != Nil
    ensures list != null && !ok ==> unchanged(list)
    ensures ok ==>
      && list.order == RemoveAt(old(list.order), Succ(old(list.size), old(list.Position(node))))
      && list.Contents() == RemoveAt(old(list.Contents()), Succ(old(list.size), old(list.Position(node))))
      && list.size == old(list.size) - 1
    ensures ok && old(list.size) == 1 ==> list.head == Nil && list.tail == Nil
    ensures ok && old(list.size) > 1 ==>
      list.head == (if node == old(list.tail) then Ref(old(list.order)[1]) else old(list.head))
    ensures ok && old(list.size) > 1 ==>
      list.tail == (if Succ(old(list.size), old(list.Position(node))) == old(list.size) - 1 then node
                    else old(list.tail))
  {
    ok := G.RemoveAfter(list, node);
  }

  /** `Utils_CSLLPushBack`: `d` is appended. */
  method PushBack(list: G.CSLL?, d: Ptr) returns (ok: bool)
    modifies list
    requires list != null ==> list.Valid()
    ensures list != null ==> list.Valid()
    ensures ok <==> list != null
    ensures ok ==> list.Contents() == old(list.Contents()) + [d]
  {
    ok := G.PushBack(list, d);
  }

  /** `Utils_CSLLPushFront`: `d` is prepended. */
  method PushFront(list: G.CSLL?, d: Ptr) returns (ok: bool)
    modifies list
    requires list != null ==> list.Valid()
    ensures list != null ==> list.Valid()
    ensures ok <==> list != null
    ensures ok ==> list.Contents() == [d] + old(list.Contents())
  {
    ok := G.PushFront(list, d);
  }

  /** `Utils_CSLLPopBack`: the last element is removed; true iff there was
      one. */
  method PopBack(list: G.CSLL?) returns (ok: bool)
    modifies list
    requires list != null ==> list.Valid()
    ensures list != null ==> list.Valid()
    ensures ok <==> list != null && old(list.size) > 0
    ensures list != null && !ok ==> unchanged(list)
    ensures ok ==> list.Contents() == old(list.Contents())[..old(list.size) - 1]
  {
    ok := G.PopBackBool(list);
  }

  /** `Utils_CSLLPopFront`: the first element is removed; true iff there
      was one. */
  method PopFront(list: G.CSLL?) returns (ok: bool)
    modifies list
    requires list != null ==> list.Valid()
    ensures list != null ==> list.Valid() && |list.nodes| == |old(list.nodes)|
    ensures ok <==> list != null && old(list.size) > 0
    ensures list != null && !ok ==> unchanged(list)
    ensures ok ==> list.Contents() == old(list.Contents())[1..]
  {
    ok := G.PopFrontBool(list);
  }

  /** `Utils_CSLLClear`: elements are popped from the front until none is
      left. */
  method Clear(list: G.CSLL?)
    modifies list
    requires list != null ==> list.Valid()
    ensures list != null ==> list.Valid() && list.Contents() == [] && list.head == Nil && list.tail == Nil
    ensures GetSize(list) == 0
  {
    while GetSize(list) > 0
      invariant list != null ==> list.Valid()
      decreases GetSize(list)
    {
      var _ := PopFront(list);
    }
  }

  /** Lines 24-51 of the driver: `array[0]` to `array[4]` pushed at the
      front of the empty list. */
  method PushFrontPhase(list: G.CSLL) returns (passed: bool)
    modifies list
    requires list.Valid() && list.Contents() == []
    ensures passed && list.Valid() && list.Contents() == Countdown(0, 5)
  {
    for i := 0 to 5
      invariant list.Valid()
      invariant list.Contents() == Countdown(0, i)
    {
      var ok := PushFront(list, Element(i));
      if !ok {
        return false;
      }
    }
    return true;
  }

  /** Lines 53-80 of the driver: `array[5]` to `array[9]` pushed at the
      back. */
  method PushBackPhase(list: G.CSLL) returns (passed: bool)
    modifies list
    requires list.Valid()
    ensures passed && list.Valid() && list.Contents() == old(list.Contents()) + Countup(5, 5)
  {
    ghost var s := list.Contents();
    for i := 0 to 5
      invariant list.Valid()
      invariant list.Contents() == s + Countup(5, i)
    {
      var ok := PushBack(list, Element(5 + i));
      if !ok {
        return false;
      }
      assert s + Countup(5, i + 1) == (s + Countup(5, i)) + [Element(5 + i)];
    }
    return true;
  }

  /** One insertion after the head, as the driver's loop at lines 82-110
      makes it: `array[3 + i]` goes right after the head. */
  method InsertAfterHeadStep(list: G.CSLL, ghost first: seq<Ptr>, ghost rest: seq<Ptr>, i: nat)
    returns (ok: bool)
    modifies list
    requires |first| == 1 && list.Valid() && list.Contents() == first + (Countdown(3, i) + rest)
    ensures ok && list.Valid() && list.Contents() == first + (Countdown(3, i + 1) + rest)
  {
    ghost var later := Countdown(3, i) + rest;
    assert list.size > 0;
    var head := Begin(list);
    ok := InsertAfter(list, head, Element(i + 3));
    assert list.Contents() == InsertAt(first + later, 1, Element(i + 3));
    InsertAtOne(first, later, Element(i + 3));
    CountdownCons(3, i, rest);
  }

  /** Lines 82-110 of the driver: `array[3]` to `array[7]` inserted after
      the head. */
  method InsertAfterHeadPhase(list: G.CSLL) returns (passed: bool)
    modifies list
    requires list.Valid() && list.size > 0
    ensures passed && list.Valid()
    ensures list.Contents() == old(list.Contents())[..1] + (Countdown(3, 5) + old(list.Contents())[1..])
  {
    ghost var first := list.Contents()[..1];
    ghost var rest := list.Contents()[1..];
    assert list.Contents() == first + (Countdown(3, 0) + rest);
    for i := 0 to 5
      invariant list.Valid()
      invariant list.Contents() == first + (Countdown(3, i) + rest)
    {
      var ok := InsertAfterHeadStep(list, first, rest, i);
      if !ok {
        return false;
      }
    }
    return true;
  }

  /** Lines 113-141 of the driver: three pops at the front. */
  method PopFrontPhase(list: G.CSLL) returns (passed: bool)
    modifies list
    requires list.Valid() && list.size >= 3
    ensures passed && list.Valid() && list.Contents() == old(list.Contents())[3..]
  {
    ghost var s := list.Contents();
    for i := 0 to 3
      invariant list.Valid()
      invariant list.Contents() == s[i..]
    {
      var ok := PopFront(list);
      if !ok {
        return false;
      }
    }
    return true;
  }

  /** Lines 143-171 of the driver: three pops at the back. */
  method PopBackPhase(list: G.CSLL) returns (passed: bool)
    modifies list
    requires list.Valid() && list.size >= 3
    ensures passed && list.Valid() && list.Contents() == old(list.Contents())[..old(list.size) - 3]
  {
    ghost var s := list.Contents();
    ghost var n := list.size;
    for i := 0 to 3
      invariant list.Valid()
      invariant list.Contents() == s[..n - i]
    {
      var ok := PopBack(list);
      if !ok {
        return false;
      }
      assert s[..n - i][..n - i - 1] == s[..n - i - 1];
    }
    return true;
  }

  /** One removal after the head, as the driver's loop at lines 173-201
      makes it: of the elements after the head, the first goes. */
  method RemoveAfterHeadStep(list: G.CSLL, ghost s: seq<Ptr>, ghost i: nat)
    returns (ok: bool)
    modifies list
    requires 0 < i + 1 < |s| && list.Valid() && list.Contents() == s[..1] + s[i + 1..]
    ensures ok && list.Valid() && list.Contents() == s[..1] + s[i + 2..]
  {
    var head := Begin(list);
    ok := RemoveAfter(list, head);
    ghost var c := s[..1] + s[i + 1..];
    assert c[..1] == s[..1] && c[2..] == s[i + 2..];
  }

  /** Lines 173-201 of the driver: the successor of the head removed
      twice. */
  method RemoveAfterHeadPhase(list: G.CSLL) returns (passed: bool)
    modifies list
    requires list.Valid() && list.size >= 3
    ensures passed && list.Valid() && list.Contents() == old(list.Contents())[..1] + old(list.Contents())[3..]
  {
    ghost var s := list.Contents();
    for i := 0 to 2
      invariant list.Valid()
      invariant list.Contents() == s[..1] + s[i + 1..]
    {
      var ok := RemoveAfterHeadStep(list, s, i);
      if !ok {
        return false;
      }
    }
    return true;
  }

  /** The driver `src/tests/CSLL.c` on a new list: five pushes at the
      front, five at the back, five insertions after the head, three pops
      at each end and two removals after the head. Every call succeeds,
      and the list ends with the elements 5, 3, 2, 1, 0, 5, 6. */
  method DriverRun() returns (passed: bool, list: G.CSLL)
    ensures passed
    ensures list.Valid()
    ensures list.Contents() == [Element(5), Element(3), Element(2), Element(1), Element(0), Element(5), Element(6)]
  {
    list := new G.CSLL();
    passed := PushFrontPhase(list);
    passed := PushBackPhase(list);
    ghost var pushed := list.Contents();
    assert pushed == AfterPushBack();
    passed := InsertAfterHeadPhase(list);
    ghost var inserted := list.Contents();
    InsertAfterHeadStage(pushed, inserted);
    passed := PopFrontPhase(list);
    ghost var middle := list.Contents();
    ghost var n := list.size;
    passed := PopBackPhase(list);
    ghost var popped := list.Contents();
    PopsStage(inserted, middle, n, popped);
    passed := RemoveAfterHeadPhase(list);
    RemoveAfterHeadStage(popped, list.Contents());
  }
}
