/** The contents the list drivers `src/tests/CSLL.c` and `src/tests/CDLL.c`
    expect after each of their phases. Both drivers store the addresses of
    `array[0]` to `array[9]` and run the same calls. */
module DriverStages {
  import opened CTypes

  /** The user data of the drivers: the address of `array[i]`. */
  function Element(i: nat): Ptr {
    Addr(i)
  }

  /** The elements `lo + n - 1` down to `lo`. */
  function Countdown(lo: nat, n: nat): (s: seq<Ptr>)
    ensures |s| == n
  {
    if n == 0 then [] else [Element(lo + n - 1)] + Countdown(lo, n - 1)
  }

  /** Putting `lo + n` in front of the countdown from `lo + n - 1`
      extends it by one. */
  lemma {:induction false} CountdownCons(lo: nat, n: nat, rest: seq<Ptr>)
    ensures [Element(lo + n)] + (Countdown(lo, n) + rest) == Countdown(lo, n + 1) + rest
  {
    assert Countdown(lo, n + 1) == [Element(lo + n)] + Countdown(lo, n);
  }

  /** The elements `lo` up to `lo + n - 1`. */
  function Countup(lo: nat, n: nat): (s: seq<Ptr>)
    ensures |s| == n
  {
    if n == 0 then [] else Countup(lo, n - 1) + [Element(lo + n - 1)]
  }

  /** After pushing `array[0]` to `array[4]` at the front. */
  function AfterPushFront(): seq<Ptr> {
    Countdown(0, 5)
  }

  /** After pushing `array[5]` to `array[9]` at the back. */
  function AfterPushBack(): seq<Ptr> {
    AfterPushFront() + Countup(5, 5)
  }

  /** After inserting `array[3]` to `array[7]` after the head. */
  function AfterInsertAfterHead(): seq<Ptr> {
    AfterPushBack()[..1] + Countdown(3, 5) + AfterPushBack()[1..]
  }

  /** After three pops at the front and three at the back. */
  function AfterPops(): seq<Ptr> {
    AfterInsertAfterHead()[3..12]
  }

  /** After removing the successor of the head twice. */
  function AfterRemoveAfterHead(): seq<Ptr> {
    AfterPops()[..1] + AfterPops()[3..]
  }

  /** The insertions after the head take the list from its state after
      the pushes to the next stage. */
  lemma {:induction false} InsertAfterHeadStage(before: seq<Ptr>, after: seq<Ptr>)
    requires before == AfterPushBack() && after == before[..1] + (Countdown(3, 5) + before[1..])
    ensures after == AfterInsertAfterHead()
  {
  }

  /** Three pops at the front, then three at the back, of a list of
      `n` elements. */
  lemma {:induction false} PopsStage(before: seq<Ptr>, middle: seq<Ptr>, n: nat, after: seq<Ptr>)
    requires before == AfterInsertAfterHead() && middle == before[3..]
    requires n == |middle| && n >= 3 && after == middle[..n - 3]
    ensures after == AfterPops()
  {
    assert |before| == 15;
    assert middle[..n - 3] == before[3..12];
  }

  /** The two removals after the head. */
  lemma {:induction false} RemoveAfterHeadStage(before: seq<Ptr>, after: seq<Ptr>)
    requires before == AfterPops() && |before| >= 3 && after == before[..1] + before[3..]
    ensures after == [Element(5), Element(3), Element(2), Element(1), Element(0), Element(5), Element(6)]
  {
    AfterRemoveAfterHeadValue();
  }

  /** The stages, element by element, as the drivers print them. */
  lemma {:induction false} AfterPushFrontValue()
    ensures AfterPushFront() == [Element(4), Element(3), Element(2), Element(1), Element(0)]
  {
  }

  lemma {:induction false} AfterPushBackValue()
    ensures AfterPushBack() == [Element(4), Element(3), Element(2), Element(1), Element(0),
                                Element(5), Element(6), Element(7), Element(8), Element(9)]
  {
    AfterPushFrontValue();
  }

  lemma {:induction false} AfterInsertAfterHeadValue()
    ensures AfterInsertAfterHead() == [Element(4), Element(7), Element(6), Element(5), Element(4),
                                       Element(3), Element(3), Element(2), Element(1), Element(0),
                                       Element(5), Element(6), Element(7), Element(8), Element(9)]
  {
    AfterPushBackValue();
  }

  lemma {:induction false} AfterPopsValue()
    ensures AfterPops() == [Element(5), Element(4), Element(3), Element(3), Element(2),
                            Element(1), Element(0), Element(5), Element(6)]
  {
    AfterInsertAfterHeadValue();
  }

  lemma {:induction false} AfterRemoveAfterHeadValue()
    ensures AfterRemoveAfterHead() == [Element(5), Element(3), Element(2), Element(1), Element(0),
                                       Element(5), Element(6)]
  {
    AfterPopsValue();
  }
}
