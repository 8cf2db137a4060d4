/** The stack of `src/lib/GenUtils/Stack.c`: a `GenUtils_Stack` is a
    `GenUtils_CDLL` whose tail is the top. Every operation forwards to the
    list with a possibly-NULL handle. */
module GenUtilsStack {
  import opened CTypes
  import C = GenUtilsCDLL

  /** `GenUtils_StackCreate`: a new empty stack. */
  method Create() returns (stack: C.CDLL)
    ensures fresh(stack) && stack.Valid() && stack.Contents() == []
  {
    stack := new C.CDLL();
  }

  function WasInit(stack: C.CDLL?): (r: bool)
    ensures r <==> stack != null
  {
    C.WasInit(stack)
  }

  /** The number of elements; 0 for a NULL handle. */
  function GetSize(stack: C.CDLL?): (n: nat)
    reads stack
    requires stack != null ==> stack.Valid()
    ensures n == if stack == null then 0 else |stack.Contents()|
  {
    C.GetSize(stack)
  }

  /** True for an initialized stack without elements; false for a NULL
      handle. */
  function IsEmpty(stack: C.CDLL?): (r: bool)
    reads stack
    requires stack != null ==> stack.Valid()
    ensures r <==> stack != null && stack.Contents() == []
  {
    C.IsEmpty(stack)
  }

  /** `GenUtils_StackPush`: `d` becomes the top. */
  method Push(stack: C.CDLL?, d: Ptr) returns (ok: bool)
    modifies stack
    requires stack != null ==> stack.Valid()
    ensures stack != null ==> stack.Valid()
    ensures ok <==> stack != null
    ensures ok ==> stack.Contents() == old(stack.Contents()) + [d]
  {
    ok := C.PushBack(stack, d);
  }

  /** `GenUtils_StackPop`: the top is removed, and the data it held,
      converted to a truth value, is returned: false for an empty stack or
      a NULL handle, and false as well when the removed element's data is
      NULL. */
  method Pop(stack: C.CDLL?) returns (ok: bool)
    modifies stack
    requires stack != null ==> stack.Valid()
    ensures stack != null ==> stack.Valid()
    ensures ok <==> stack != null && old(stack.size) > 0 && old(stack.Contents())[old(stack.size) - 1] != Null
    ensures stack != null && old(stack.size) == 0 ==> unchanged(stack)
    ensures stack != null && old(stack.size) > 0 ==> stack.Contents() == old(stack.Contents())[..old(stack.size) - 1]
  {
    var data := C.PopBack(stack);
    ok := data != Null;
  }

  /** `GenUtils_StackPopBool`: the top is removed; true iff there was
      one. */
  method PopBool(stack: C.CDLL?) returns (ok: bool)
    modifies stack
    requires stack != null ==> stack.Valid()
    ensures stack != null ==> stack.Valid()
    ensures ok <==> stack != null && old(stack.size) > 0
    ensures stack != null && !ok ==> unchanged(stack)
    ensures ok ==> stack.Contents() == old(stack.Contents())[..old(stack.size) - 1]
  {
    ok := C.PopBackBool(stack);
  }

  /** `GenUtils_StackTop`: the data of the top, read through the list's
      tail; NULL for an empty stack or a NULL handle. */
  function Top(stack: C.CDLL?): (r: Ptr)
    reads stack
    requires stack != null ==> stack.Valid()
    ensures r == if stack == null || stack.size == 0 then Null else stack.Contents()[stack.size - 1]
  {
    if C.WasInit(stack) && !C.IsEmpty(stack) then stack.nodes[C.End(stack).index].userdata else Null
  }

  /** `GenUtils_StackClear`: every element is popped. */
  method Clear(stack: C.CDLL?)
    modifies stack
    requires stack != null ==> stack.Valid()
    ensures stack != null ==> stack.Valid() && stack.Contents() == []
    ensures IsEmpty(stack) <==> stack != null
  {
    C.Clear(stack);
  }

  /** Last in, first out: a push followed by a pop gives back the stack
      as it was, and the pushed element is the top in between. */
  method PushThenPop(stack: C.CDLL, d: Ptr) returns (top: Ptr, ok: bool)
    modifies stack
    requires stack.Valid()
    ensures stack.Valid() && top == d && ok
    ensures stack.Contents() == old(stack.Contents())
  {
    ghost var s := stack.Contents();
    var pushed := Push(stack, d);
    top := Top(stack);
    ok := PopBool(stack);
    assert (s + [d])[..|s|] == s;
  }

  /** The as-written `Pop` on a stack whose only element is NULL: the
      element is removed ("success") and false ("failure") is returned. */
  method PopOfNullTop() returns (ok: bool, stack: C.CDLL)
    ensures stack.Valid() && stack.Contents() == []
    ensures !ok
  {
    stack := Create();
    var pushed := Push(stack, Null);
    ok := Pop(stack);
  }

  /** The same stack popped with `PopBool`, which reports the removal. */
  method PopBoolOfNullTop() returns (ok: bool, stack: C.CDLL)
    ensures stack.Valid() && stack.Contents() == []
    ensures ok
  {
    stack := Create();
    var pushed := Push(stack, Null);
    ok := PopBool(stack);
  }
}
