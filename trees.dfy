/** Binary trees as values, the three traversal orders and a zipper (the
    path of frames from the root down to a subtree). The binary search tree
    uses `Tree<nat>` for the shape of its heap of nodes and
    `Tree<KeyValue>` for its contents. The child slots keep the names of the
    C node record: `first` and `second`. */
module Trees {

  datatype Tree<T> = Empty | Node(first: Tree<T>, val: T, second: Tree<T>)

  function Count<T>(t: Tree<T>): nat {
    match t
    case Empty => 0
    case Node(f, _, s) => Count(f) + 1 + Count(s)
  }

  /** Visit `first`, then the node, then `second`. */
  function InOrder<T>(t: Tree<T>): seq<T> {
    match t
    case Empty => []
    case Node(f, x, s) => InOrder(f) + [x] + InOrder(s)
  }

  /** Visit the node, then `first`, then `second`. */
  function PreOrder<T>(t: Tree<T>): seq<T> {
    match t
    case Empty => []
    case Node(f, x, s) => [x] + PreOrder(f) + PreOrder(s)
  }

  /** Visit `first`, then `second`, then the node. */
  function PostOrder<T>(t: Tree<T>): seq<T> {
    match t
    case Empty => []
    case Node(f, x, s) => PostOrder(f) + PostOrder(s) + [x]
  }

  /** The values stored in a tree, with multiplicity. */
  function Bag<T>(t: Tree<T>): multiset<T> {
    match t
    case Empty => multiset{}
    case Node(f, x, s) => Bag(f) + multiset{x} + Bag(s)
  }

  /** Each traversal visits every node of the tree exactly once: the visited
      sequence holds the tree's values with their multiplicities, and its
      length is the node count. */
  lemma {:induction false} InOrderVisitsEveryNodeOnce<T>(t: Tree<T>)
    ensures multiset(InOrder(t)) == Bag(t) && |InOrder(t)| == Count(t)
  {
    match t
    case Empty =>
    case Node(f, x, s) =>
      InOrderVisitsEveryNodeOnce(f);
      InOrderVisitsEveryNodeOnce(s);
      assert InOrder(t) == InOrder(f) + [x] + InOrder(s);
  }

  lemma {:induction false} PreOrderVisitsEveryNodeOnce<T>(t: Tree<T>)
    ensures multiset(PreOrder(t)) == Bag(t) && |PreOrder(t)| == Count(t)
  {
    match t
    case Empty =>
    case Node(f, x, s) =>
      PreOrderVisitsEveryNodeOnce(f);
      PreOrderVisitsEveryNodeOnce(s);
      assert PreOrder(t) == [x] + PreOrder(f) + PreOrder(s);
  }

  lemma {:induction false} PostOrderVisitsEveryNodeOnce<T>(t: Tree<T>)
    ensures multiset(PostOrder(t)) == Bag(t) && |PostOrder(t)| == Count(t)
  {
    match t
    case Empty =>
    case Node(f, x, s) =>
      PostOrderVisitsEveryNodeOnce(f);
      PostOrderVisitsEveryNodeOnce(s);
      assert PostOrder(t) == PostOrder(f) + PostOrder(s) + [x];
  }

  /** The in-order sequence of the node's split point: everything of `first`
      comes before the node, everything of `second` after it. */
  lemma {:induction false} InOrderSplit<T>(f: Tree<T>, x: T, s: Tree<T>)
    ensures InOrder(Node(f, x, s))[|InOrder(f)|] == x
    ensures InOrder(Node(f, x, s))[..|InOrder(f)|] == InOrder(f)
    ensures InOrder(Node(f, x, s))[|InOrder(f)| + 1..] == InOrder(s)
  {
  }

  /** The last node of the in-order sequence: the end of the chain of
      `second` links. */
  function Last<T>(t: Tree<T>): T
    requires t != Empty
  {
    if t.second == Empty then t.val else Last(t.second)
  }

  /** The tree without its last in-order node, whose `first` subtree takes
      its place. */
  function DropLast<T>(t: Tree<T>): Tree<T>
    requires t != Empty
  {
    if t.second == Empty then t.first else Node(t.first, t.val, DropLast(t.second))
  }

  lemma {:induction false} DropLastInOrder<T>(t: Tree<T>)
    requires t != Empty
    ensures InOrder(t) == InOrder(DropLast(t)) + [Last(t)]
    ensures Count(DropLast(t)) + 1 == Count(t)
  {
    if t.second != Empty {
      DropLastInOrder(t.second);
    }
  }

  /** One step of a descent: the node left behind and the subtree not
      taken. */
  datatype Frame<T> = WentFirst(val: T, second: Tree<T>) | WentSecond(first: Tree<T>, val: T)

  function Attach<T>(fr: Frame<T>, t: Tree<T>): Tree<T> {
    match fr
    case WentFirst(x, s) => Node(t, x, s)
    case WentSecond(f, x) => Node(f, x, t)
  }

  /** The whole tree, given the path from its root down to subtree `t`
      (`path[0]` is the root's frame). */
  function Plug<T>(path: seq<Frame<T>>, t: Tree<T>): Tree<T>
    decreases |path|
  {
    if path == [] then t else Plug(path[..|path| - 1], Attach(path[|path| - 1], t))
  }

  lemma {:induction false} PlugSnoc<T>(path: seq<Frame<T>>, fr: Frame<T>, t: Tree<T>)
    ensures Plug(path + [fr], t) == Plug(path, Attach(fr, t))
  {
    assert (path + [fr])[..|path|] == path;
  }

  /** A path made only of `second` steps. */
  predicate AllSecond<T>(path: seq<Frame<T>>) {
    forall k | 0 <= k < |path| :: path[k].WentSecond?
  }

  /** Plugging from the root end: the first frame of the path is the root. */
  lemma {:induction false} PlugCons<T>(fr: Frame<T>, rest: seq<Frame<T>>, t: Tree<T>)
    ensures Plug([fr] + rest, t) == Attach(fr, Plug(rest, t))
    decreases |rest|
  {
    if rest == [] {
      assert [fr] + rest == [fr];
    } else {
      var init, last := rest[..|rest| - 1], rest[|rest| - 1];
      assert ([fr] + rest)[..|rest|] == [fr] + init;
      PlugCons(fr, init, Attach(last, t));
    }
  }

  /** Following `second` steps from the root and stopping at a node with no
      `second` child reaches the last in-order node; removing it leaves its
      `first` subtree in its place. */
  lemma {:induction false} LastAlongSecondPath<T>(path: seq<Frame<T>>, f: Tree<T>, x: T)
    requires AllSecond(path)
    ensures Plug(path, Node(f, x, Empty)) != Empty
    ensures Last(Plug(path, Node(f, x, Empty))) == x
    ensures DropLast(Plug(path, Node(f, x, Empty))) == Plug(path, f)
    decreases |path|
  {
    if path != [] {
      var fr, rest := path[0], path[1..];
      assert path == [fr] + rest;
      assert AllSecond(rest) by {
        forall k | 0 <= k < |rest| ensures rest[k].WentSecond? {
          assert rest[k] == path[k + 1];
        }
      }
      LastAlongSecondPath(rest, f, x);
      PlugCons(fr, rest, Node(f, x, Empty));
      PlugCons(fr, rest, f);
    }
  }

  /** Replacing the subtree at the end of a path changes the node count by
      the difference of the two subtrees' counts. */
  lemma {:induction false} PlugCount<T>(path: seq<Frame<T>>, t: Tree<T>, t': Tree<T>)
    ensures Count(Plug(path, t')) + Count(t) == Count(Plug(path, t)) + Count(t')
    decreases |path|
  {
    if path != [] {
      var init, fr := path[..|path| - 1], path[|path| - 1];
      PlugCount(init, Attach(fr, t), Attach(fr, t'));
    }
  }
}
