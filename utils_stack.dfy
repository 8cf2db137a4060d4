/** The stack of `src/lib/Utils/Stack.c`: a `Utils_Stack` is a `Utils_CDLL`
    whose tail is the top. Every operation forwards to the list with a
    possibly-NULL handle. */
module UtilsStack {
  import opened CTypes
  import C = GenUtilsCDLL
  import U = UtilsCDLL

  /** `Utils_StackCreate`: a new empty stack. */
  method Create() returns (stack: C.CDLL)
    ensures fresh(stack) && stack.Valid() && stack.Contents() == []
  {
    stack := new C.CDLL();
  }

  function WasInit(stack: C.CDLL?): (r: bool)
    ensures r <==> stack != null
  {
    U.WasInit(stack)
  }

  /** The number of elements; 0 for a NULL handle. */
  function GetSize(stack: C.CDLL?): (n: nat)
    reads stack
    requires stack != null ==> stack.Valid()
    ensures n == if stack == null then 0 else |stack.Contents()|
  {
    U.GetSize(stack)
  }

  /** True for an initialized stack without elements; false for a NULL
      handle. */
  function IsEmpty(stack: C.CDLL?): (r: bool)
    reads stack
    requires stack != null ==> stack.Valid()
    ensures r <==> stack != null && stack.Contents() == []
  {
    U.IsEmpty(stack)
  }

  /** `Utils_StackPush`: `d` becomes the top. */
  method Push(stack: C.CDLL?, d: Ptr) returns (ok: bool)
    modifies stack
    requires stack != null ==> stack.Valid()
    ensures stack != null ==> stack.Valid()
    ensures ok <==> stack != null
    ensures ok ==> stack.Contents() == old(stack.Contents()) + [d]
  {
    ok := U.PushBack(stack, d);
  }

  /** `Utils_StackPop`: the top is removed; true iff there was one. */
  method Pop(stack: C.CDLL?) returns (ok: bool)
    modifies stack
    requires stack != null ==> stack.Valid()
    ensures stack != null ==> stack.Valid()
    ensures ok <==> stack != null && old(stack.size) > 0
    ensures stack != null && !ok ==> unchanged(stack)
    ensures ok ==> stack.Contents() == old(stack.Contents())[..old(stack.size) - 1]
  {
    ok := U.PopBack(stack);
  }

  /** `Utils_StackTop`: the data of the top, read through the list's tail;
      NULL for an empty stack or a NULL handle. */
  function Top(stack: C.CDLL?): (r: Ptr)
    reads stack
    requires stack != null ==> stack.Valid()
    ensures r == if stack == null || stack.size == 0 then Null else stack.Contents()[stack.size - 1]
  {
    if U.WasInit(stack) && !U.IsEmpty(stack) then stack.nodes[U.End(stack).index].userdata else Null
  }

  /** `Utils_StackClear`: every element is popped. */
  method Clear(stack: C.CDLL?)
    modifies stack
    requires stack != null ==> stack.Valid()
    ensures stack != null ==> stack.Valid() && stack.Contents() == []
    ensures IsEmpty(stack) <==> stack != null
  {
    U.Clear(stack);
  }

  /** Last in, first out: pushes `a` then `b` come back as `b` then `a`,
      and the stack ends as it began. */
  method PushTwicePopTwice(stack: C.CDLL, a: Ptr, b: Ptr) returns (first: Ptr, second: Ptr)
    modifies stack
    requires stack.Valid()
    ensures first == b && second == a
    ensures stack.Valid() && stack.Contents() == old(stack.Contents())
  {
    ghost var s := stack.Contents();
    var _ := Push(stack, a);
    var _ := Push(stack, b);
    first := Top(stack);
    var _ := Pop(stack);
    assert (s + [a] + [b])[..|s| + 1] == s + [a];
    second := Top(stack);
    var _ := Pop(stack);
    assert (s + [a])[..|s|] == s;
  }
}
