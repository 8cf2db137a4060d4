/** The circular doubly linked list of `src/lib/Utils/CDLL.c`. Its code is
    that of `src/lib/GenUtils/CDLL.c` under the `Utils_` prefix, with a
    `Utils_DoubleNode`'s `prevNode` and `nextNode` in the places of a
    `GenUtils_DoubleNode`'s `first` and `second`; the list, its nodes and
    its splicing are those of `GenUtilsCDLL`. Only the pop at the back
    differs, returning whether a node was removed rather than its data,
    and there is no separate `PopBackBool`. */
module UtilsCDLL {
  import opened CTypes
  import opened Sequences
  import opened DriverStages
  import opened Rings
  import G = GenUtilsCDLL

  function WasInit(list: G.CDLL?): (r: bool)
    ensures r <==> list != null
  {
    G.WasInit(list)
  }

  /** The number of elements; 0 for a NULL handle. */
  function GetSize(list: G.CDLL?): (n: nat)
    reads list
    requires list != null ==> list.Valid()
    ensures n == if list == null then 0 else |list.Contents()|
  {
    G.GetSize(list)
  }

  /** True for an initialized list without elements; false for a NULL
      handle. */
  function IsEmpty(list: G.CDLL?): (r: bool)
    reads list
    requires list != null ==> list.Valid()
    ensures r <==> list != null && list.Contents() == []
  {
    G.IsEmpty(list)
  }

  /** The head node; NULL for a NULL handle or an empty list. */
  function Begin(list: G.CDLL?): (r: Link)
    reads list
    requires list != null ==> list.Valid()
    ensures r == Nil <==> list == null || list.size == 0
    ensures r != Nil ==> list.Holds(r) && list.Position(r) == 0
  {
    G.Begin(list)
  }

  /** The tail node, the head's `prevNode`; NULL for a NULL handle or an
      empty list. */
  function End(list: G.CDLL?): (r: Link)
    reads list
    requires list != null ==> list.Valid()
    ensures r == Nil <==> list == null || list.size == 0
    ensures r != Nil ==> list.Holds(r) && list.Position(r) == list.size - 1
  {
    G.End(list)
  }

  /** `Utils_CDLLInsert`: a new node holding `d` goes in before `node`, and
      becomes the head if `node` was the head. */
  method Insert(list: G.CDLL?, node: Link, d: Ptr) returns (ok: bool)
    modifies list
    requires list != null ==> list.Valid() && (list.size > 0 ==> node == Nil || list.Holds(node))
    ensures list != null ==> list.Valid()
    ensures ok <==> list != null && (old(list.size) == 0 || node != Nil)
    ensures list != null && !ok ==> unchanged(list)
    ensures ok ==> list.size == old(list.size) + 1
    ensures ok && old(list.size) == 0 ==> list.Contents() == [d] && list.head == Ref(|old(list.nodes)|)
    ensures ok && old(list.size) > 0 ==>
      && list.Contents() == InsertAt(old(list.Contents()), old(list.Position(node)), d)
      && list.order == InsertAt(old(list.order), old(list.Position(node)), |old(list.nodes)|)
      && list.head == (if node == old(list.head) then Ref(|old(list.nodes)|) else old(list.head))
  {
    ok := G.Insert(list, node, d);
  }

  /** `Utils_CDLLInsertAfter`: a new node holding `d` goes in after
      `node`; the head stays. */
  method InsertAfter(list: G.CDLL?, node: Link, d: Ptr) returns (ok: bool)
    modifies list
    requires list != null ==> list.Valid() && (list.size > 0 ==> node == Nil || list.Holds(node))
    ensures list != null ==> list.Valid()
    ensures ok <==> list != null && (old(list.size) == 0 || node != Nil)
    ensures list != null && !ok ==> unchanged(list)
    ensures ok ==> list.size == old(list.size) + 1
    ensures ok && old(list.size) == 0 ==> list.Contents() == [d] && list.head == Ref(|old(list.nodes)|)
    ensures ok && old(list.size) > 0 ==>
      && list.Contents() == InsertAt(old(list.Contents()), old(list.Position(node)) + 1, d)
      && list.order == InsertAt(old(list.order), old(list.Position(node)) + 1, |old(list.nodes)|)
      && list.head == old(list.head)
  {
    ok := G.InsertAfter(list, node, d);
  }

  /** `Utils_CDLLRemove`: the node `node` leaves the list, the head
      advancing if it was the head. */
  method Remove(list: G.CDLL?, node: Link) returns (ok: bool)
    modifies list
    requires list != null ==> list.Valid() && (node == Nil || list.Holds(node))
    ensures list != null ==> list.Valid() && |list.nodes| == |old(list.nodes)|
    ensures ok <==> list != null && node != Nil
    ensures list != null && !ok ==> unchanged(list)
    ensures ok ==>
      && list.order == RemoveAt(old(list.order), old(list.Position(node)))
      && list.Contents() == RemoveAt(old(list.Contents()), old(list.Position(node)))
      && list.size == old(list.size) - 1
    ensures ok && old(list.size) == 1 ==> list.head == Nil
    ensures ok && old(list.size) > 1 ==>
      list.head == (if node == old(list.head) then old(list.nodes[node.index].second) else old(list.head))
  {
    ok := G.Remove(list, node);
  }

  /** `Utils_CDLLRemoveAfter`: the `nextNode` of `node` leaves the list. */
  method RemoveAfter(list: G.CDLL?, node: Link) returns (ok: bool)
    modifies list
    requires list != null ==> list.Valid() && (node == Nil || list.Holds(node))
    ensures list != null ==> list.Valid() && |list.nodes| == |old(list.nodes)|
    ensures ok <==> list != null && node != Nil
    ensures list != null && !ok ==> unchanged(list)
    ensures ok ==>
      && list.order == RemoveAt(old(list.order), Succ(old(list.size), old(list.Position(node))))
      && list.Contents() == RemoveAt(old(list.Contents()), Succ(old(list.size), old(list.Position(node))))
      && list.size == old(list.size) - 1
    ensures ok && old(list.size) == 1 ==> list.head == Nil
    ensures ok && old(list.size) > 1 ==>
      list.head == (if Succ(old(list.size), old(list.Position(node))) == 0 then Ref(old(list.order)[1])
                    else old(list.head))
  {
    ok := G.RemoveAfter(list, node);
  }

  /** `Utils_CDLLPushBack`: `d` is appended. */
  method PushBack(list: G.CDLL?, d: Ptr) returns (ok: bool)
    modifies list
    requires list != null ==> list.Valid()
    ensures list != null ==> list.Valid()
    ensures ok <==> list != null
    ensures ok ==> list.Contents() == old(list.Contents()) + [d]
  {
    ok := G.PushBack(list, d);
  }

  /** `Utils_CDLLPopBack`: the last element is removed; true iff there was
      one. */
  method PopBack(list: G.CDLL?) returns (ok: bool)
    modifies list
    requires list != null ==> list.Valid()
    ensures list != null ==> list.Valid()
    ensures ok <==> list != null && old(list.size) > 0
    ensures list != null && !ok ==> unchanged(list)
    ensures ok ==> list.Contents() == old(list.Contents())[..old(list.size) - 1]
  {
    ok := G.PopBackBool(list);
  }

  /** `Utils_CDLLPushFront`: `d` is prepended. */
  method PushFront(list: G.CDLL?, d: Ptr) returns (ok: bool)
    modifies list
    requires list != null ==> list.Valid()
    ensures list != null ==> list.Valid()
    ensures ok <==> list != null
    ensures ok ==> list.Contents() == [d] + old(list.Contents())
  {
    ok := G.PushFront(list, d);
  }

  /** `Utils_CDLLPopFront`: the first element is removed; true iff there
      was one. */
  method PopFront(list: G.CDLL?) returns (ok: bool)
    modifies list
    requires list != null ==> list.Valid()
    ensures list != null ==> list.Valid() && |list.nodes| == |old(list.nodes)|
    ensures ok <==> list != null && old(list.size) > 0
    ensures list != null && !ok ==> unchanged(list)
    ensures ok ==> list.Contents() == old(list.Contents())[1..]
  {
    ok := G.PopFront(list);
  }

  /** `Utils_CDLLClear`: elements are popped from the front until none is
      left. */
  method Clear(list: G.CDLL?)
    modifies list
    requires list != null ==> list.Valid()
    ensures list != null ==> list.Valid() && list.Contents() == [] && list.head == Nil
    ensures GetSize(list) == 0
  {
    while GetSize(list) > 0
      invariant list != null ==> list.Valid()
      decreases GetSize(list)
    {
      var _ := PopFront(list);
    }
  }

  /** `Utils_CDLLIterate`: the calls made to a non-NULL visitor, one per
      element from the head along `nextNode`, each with `extradata`. */
  method Iterate(list: G.CDLL?, extradata: Ptr, visitor: bool) returns (calls: seq<Visit>)
    requires list != null ==> list.Valid()
    ensures calls == if list == null || !visitor then [] else Visits(list.Contents(), extradata)
  {
    calls := G.Iterate(list, extradata, visitor);
  }

  /** Lines 24-51 of the driver: `array[0]` to `array[4]` pushed at the
      front of the empty list. */
  method PushFrontPhase(list: G.CDLL) returns (passed: bool)
    modifies list
    requires list.Valid() && list.Contents() == []
    ensures passed && list.Valid() && list.Contents() == Countdown(0, 5)
  {
    for i := 0 to 5
      invariant list.Valid()
      invariant list.Contents() == Countdown(0, i)
    {
      var ok := PushFront(list, Element(i));
      if !ok {
        return false;
      }
    }
    return true;
  }

  /** Lines 53-80 of the driver: `array[5]` to `array[9]` pushed at the
      back. */
  method PushBackPhase(list: G.CDLL) returns (passed: bool)
    modifies list
    requires list.Valid()
    ensures passed && list.Valid() && list.Contents() == old(list.Contents()) + Countup(5, 5)
  {
    ghost var s := list.Contents();
    for i := 0 to 5
      invariant list.Valid()
      invariant list.Contents() == s + Countup(5, i)
    {
      var ok := PushBack(list, Element(5 + i));
      if !ok {
        return false;
      }
      assert s + Countup(5, i + 1) == (s + Countup(5, i)) + [Element(5 + i)];
    }
    return true;
  }

  /** One insertion after the head, as the driver's loop at lines 82-110
      makes it: `array[3 + i]` goes right after the head. */
  method InsertAfterHeadStep(list: G.CDLL, ghost first: seq<Ptr>, ghost rest: seq<Ptr>, i: nat)
    returns (ok: bool)
    modifies list
    requires |first| == 1 && list.Valid() && list.Contents() == first + (Countdown(3, i) + rest)
    ensures ok && list.Valid() && list.Contents() == first + (Countdown(3, i + 1) + rest)
  {
    ghost var later := Countdown(3, i) + rest;
    var head := Begin(list);
    ok := InsertAfter(list, head, Element(i + 3));
    InsertAtOne(first, later, Element(i + 3));
    CountdownCons(3, i, rest);
  }

  /** Lines 82-110 of the driver: `array[3]` to `array[7]` inserted after
      the head. */
  method InsertAfterHeadPhase(list: G.CDLL) returns (passed: bool)
    modifies list
    requires list.Valid() && list.size > 0
    ensures passed && list.Valid()
    ensures list.Contents() == old(list.Contents())[..1] + (Countdown(3, 5) + old(list.Contents())[1..])
  {
    ghost var first := list.Contents()[..1];
    ghost var rest := list.Contents()[1..];
    assert list.Contents() == first + (Countdown(3, 0) + rest);
    for i := 0 to 5
      invariant list.Valid()
      invariant list.Contents() == first + (Countdown(3, i) + rest)
    {
      var ok := InsertAfterHeadStep(list, first, rest, i);
      if !ok {
        return false;
      }
    }
    return true;
  }

  /** Lines 113-141 of the driver: three pops at the front. */
  method PopFrontPhase(list: G.CDLL) returns (passed: bool)
    modifies list
    requires list.Valid() && list.size >= 3
    ensures passed && list.Valid() && list.Contents() == old(list.Contents())[3..]
  {
    ghost var s := list.Contents();
    for i := 0 to 3
      invariant list.Valid()
      invariant list.Contents() == s[i..]
    {
      var ok := PopFront(list);
      if !ok {
        return false;
      }
    }
    return true;
  }

  /** Lines 143-171 of the driver: three pops at the back. */
  method PopBackPhase(list: G.CDLL) returns (passed: bool)
    modifies list
    requires list.Valid() && list.size >= 3
    ensures passed && list.Valid() && list.Contents() == old(list.Contents())[..old(list.size) - 3]
  {
    ghost var s := list.Contents();
    ghost var n := list.size;
    for i := 0 to 3
      invariant list.Valid()
      invariant list.Contents() == s[..n - i]
    {
      var ok := PopBack(list);
      if !ok {
        return false;
      }
      assert s[..n - i][..n - i - 1] == s[..n - i - 1];
    }
    return true;
  }

  /** One removal after the head, as the driver's loop at lines 173-201
      makes it: of the elements after the head, the first goes. */
  method RemoveAfterHeadStep(list: G.CDLL, ghost s: seq<Ptr>, ghost i: nat)
    returns (ok: bool)
    modifies list
    requires 0 < i + 1 < |s| && list.Valid() && list.Contents() == s[..1] + s[i + 1..]
    ensures ok && list.Valid() && list.Contents() == s[..1] + s[i + 2..]
  {
    var head := Begin(list);
    ok := RemoveAfter(list, head);
    ghost var c := s[..1] + s[i + 1..];
    assert c[..1] == s[..1] && c[2..] == s[i + 2..];
  }

  /** Lines 173-201 of the driver: the successor of the head removed
      twice. */
  method RemoveAfterHeadPhase(list: G.CDLL) returns (passed: bool)
    modifies list
    requires list.Valid() && list.size >= 3
    ensures passed && list.Valid() && list.Contents() == old(list.Contents())[..1] + old(list.Contents())[3..]
  {
    ghost var s := list.Contents();
    for i := 0 to 2
      invariant list.Valid()
      invariant list.Contents() == s[..1] + s[i + 1..]
    {
      var ok := RemoveAfterHeadStep(list, s, i);
      if !ok {
        return false;
      }
    }
    return true;
  }

  /** The driver `src/tests/CDLL.c` on a new list: five pushes at the
      front, five at the back, five insertions after the head, three pops
      at each end and two removals after the head. Every call succeeds,
      and the list ends with the elements 5, 3, 2, 1, 0, 5, 6. */
  method DriverRun() returns (passed: bool, list: G.CDLL)
    ensures passed
    ensures list.Valid()
    ensures list.Contents() == [Element(5), Element(3), Element(2), Element(1), Element(0), Element(5), Element(6)]
  {
    list := new G.CDLL();
    passed := PushFrontPhase(list);
    passed := PushBackPhase(list);
    ghost var pushed := list.Contents();
    assert pushed == AfterPushBack();
    passed := InsertAfterHeadPhase(list);
    ghost var inserted := list.Contents();
    InsertAfterHeadStage(pushed, inserted);
    passed := PopFrontPhase(list);
    ghost var middle := list.Contents();
    ghost var n := list.size;
    passed := PopBackPhase(list);
    ghost var popped := list.Contents();
    PopsStage(inserted, middle, n, popped);
    passed := RemoveAfterHeadPhase(list);
    RemoveAfterHeadStage(popped, list.Contents());
  }
}
