/** The string-keyed binary search tree of `src/lib/GenUtils/BinaryTree.c`:
    a `GenUtils_BinaryTree` holds a root pointer and a node count, and its
    nodes live in the heap `nodes`. Every operation takes a possibly-NULL
    handle, as the C functions do.

    Two operations are repaired here, following the evident intent of the
    code: `Insert` creates the root leaf of an empty tree and stores the
    entry in every new leaf, and the two-child case of removal keeps the
    promoted node's `first` subtree when that node is the removed node's
    immediate `first` child. The code as written is modelled, and its
    defects shown, in module `BinaryTreeAsWritten`. */
module GenUtilsBinaryTree {
  import opened CTypes
  import opened Trees
  import opened BinaryTreeSpec
  import opened BinaryTreeHeap

  class BinaryTree {
    var nodes: Heap
    var root: Link
    var size: nat
    /** The node indices in their places in the tree. */
    ghost var shape: Tree<nat>

    ghost predicate Valid()
      reads this
    {
      Represents(nodes, shape) && root == Root(shape) && size == Count(shape)
    }

    /** The key/value records in their places in the tree. */
    ghost function Content(): Tree<KeyValue>
      reads this
    {
      Abs(nodes, shape)
    }

    /** `GenUtils_BinaryTreeCreate`: no root and size 0. */
    constructor ()
      ensures Valid() && Content() == Empty
      ensures root == Nil && size == 0 && nodes == []
    {
      nodes := [];
      root := Nil;
      size := 0;
      shape := Empty;
    }
  }

  lemma {:induction false} AbsCount(h: Heap, t: Tree<nat>)
    ensures Count(Abs(h, t)) == Count(t)
  {
    match t
    case Empty =>
    case Node(f, _, s) =>
      AbsCount(h, f);
      AbsCount(h, s);
  }

  /** One step of a descent from node `sub.val` into its `first` (or
      `second`) child: the path grows by one frame and the contents above
      the child are the contents above `sub` with that frame attached. */
  lemma {:induction false} Descend(h: Heap, path: seq<Frame<nat>>, sub: Tree<nat>, fr: Frame<nat>, child: Tree<nat>)
    requires sub != Empty
    requires (fr == WentFirst(sub.val, sub.second) && child == sub.first) ||
             (fr == WentSecond(sub.first, sub.val) && child == sub.second)
    ensures Plug(path + [fr], child) == Plug(path, sub)
    ensures Abs(h, sub) == Attach(AbsFrame(h, fr), Abs(h, child))
    ensures forall x {:trigger Plug(AbsPath(h, path + [fr]), x)} ::
      Plug(AbsPath(h, path + [fr]), x) == Plug(AbsPath(h, path), Attach(AbsFrame(h, fr), x))
  {
    assert Attach(fr, child) == sub;
    PlugSnoc(path, fr, child);
    DescendAbs(h, path, fr);
  }

  lemma {:induction false} DescendAbs(h: Heap, path: seq<Frame<nat>>, fr: Frame<nat>)
    ensures forall x {:trigger Plug(AbsPath(h, path + [fr]), x)} ::
      Plug(AbsPath(h, path + [fr]), x) == Plug(AbsPath(h, path), Attach(AbsFrame(h, fr), x))
  {
    AbsPathSnoc(h, path, fr);
    forall x {
      PlugSnoc(AbsPath(h, path), AbsFrame(h, fr), x);
    }
  }

  function WasInit(tree: BinaryTree?): (r: bool)
    ensures r <==> tree != null
  {
    tree != null
  }

  /** The node count; 0 for a NULL handle. */
  function GetSize(tree: BinaryTree?): (n: nat)
    reads tree
    requires tree != null ==> tree.Valid()
    ensures n == if tree == null then 0 else Count(tree.Content())
  {
    AbsCount(if tree == null then [] else tree.nodes, if tree == null then Empty else tree.shape);
    if WasInit(tree) then tree.size else 0
  }

  /** True for an initialized tree without nodes; false for a NULL
      handle. */
  function IsEmpty(tree: BinaryTree?): (r: bool)
    reads tree
    requires tree != null ==> tree.Valid()
    ensures r <==> tree != null && tree.Content() == Empty
  {
    WasInit(tree) && tree.size == 0
  }

  /** The root pointer; NULL for a NULL handle or an empty tree. */
  function RootOf(tree: BinaryTree?): (r: Link)
    reads tree
    requires tree != null ==> tree.Valid()
    ensures r == Nil <==> tree == null || tree.Content() == Empty
    ensures tree != null ==> r == Root(tree.shape)
  {
    if WasInit(tree) then tree.root else Nil
  }

  // ---------------------------------------------------------------------
  // Exist and Get

  /** `GenUtils_BinaryTreeGet`: the record (not only the value) that the
      descent "node key < key goes to `first`" finds, or NULL. */
  method Get(tree: BinaryTree?, key: Key) returns (r: Option<KeyValue>)
    requires tree != null ==> tree.Valid()
    ensures r == if tree == null then None else FindIns(tree.Content(), key)
  {
    var current := RootOf(tree);
    ghost var sub := if tree == null then Empty else tree.shape;
    while current != Nil
      invariant current != Nil ==> tree != null
      invariant current == Root(sub)
      invariant tree != null ==> Represents(tree.nodes, sub)
      invariant tree != null ==> FindIns(tree.Content(), key) == FindIns(Abs(tree.nodes, sub), key)
      invariant tree == null ==> sub == Empty
      decreases Count(sub)
    {
      var i := current.index;
      var record := tree.nodes[i].userdata;
      var comparison := Strcmp(record.key, key);
      if comparison < 0 {
        current := tree.nodes[i].first;
        sub := sub.first;
      } else if comparison > 0 {
        current := tree.nodes[i].second;
        sub := sub.second;
      } else {
        return Some(record);
      }
    }
    return None;
  }

  /** `GenUtils_BinaryTreeExist`: the same descent as `Get`. */
  method Exist(tree: BinaryTree?, key: Key) returns (found: bool)
    requires tree != null ==> tree.Valid()
    ensures found <==> tree != null && FindIns(tree.Content(), key).Some?
  {
    var r := Get(tree, key);
    found := r.Some?;
  }

  // ---------------------------------------------------------------------
  // Set

  /** Setting the value of node `sub.val` changes exactly that record of
      the contents. */
  lemma {:induction false} SetAtNode(h: Heap, h': Heap, path: seq<Frame<nat>>, sub: Tree<nat>, kv: KeyValue)
    requires Represents(h, Plug(path, sub)) && sub != Empty && sub.val < |h|
    requires h' == h[sub.val := h[sub.val].(userdata := h[sub.val].userdata.(value := kv.value))]
    requires Strcmp(kv.key, Val(h, sub.val).key) == 0
    ensures Represents(h', Plug(path, sub))
    ensures Abs(h', Plug(path, sub)) == Plug(AbsPath(h, path), SetStd(Abs(h, sub), kv))
  {
    LinksFrame(h, h', Plug(path, sub));
    PlugParts(h, path, sub);
    RepresentsBounds(h, Plug(path, sub));
    IdsPlug(path, sub);
    assert Agree(h, h', PathIds(path));
    AbsPathFrame(h, h', path);
    FrameAbs(h, h', sub.first);
    FrameAbs(h, h', sub.second);
    AbsPlug(h', path, sub);
  }

  /** `GenUtils_BinaryTreeSet`: the record that the descent "key < node key
      goes to `first`" finds gets the new value; true iff there is one. */
  method Set(tree: BinaryTree?, kv: KeyValue) returns (updated: bool)
    modifies tree
    requires tree != null ==> tree.Valid()
    ensures tree != null ==> tree.Valid() && tree.Content() == SetStd(old(tree.Content()), kv)
    ensures tree != null ==> tree.shape == old(tree.shape) && tree.root == old(tree.root) && tree.size == old(tree.size)
    ensures updated <==> tree != null && FindStd(old(tree.Content()), kv.key).Some?
    ensures tree != null && !updated ==> unchanged(tree)
  {
    if tree == null {
      return false;
    }
    var current := RootOf(tree);
    ghost var h := tree.nodes;
    ghost var path: seq<Frame<nat>> := [];
    ghost var sub := tree.shape;
    AbsPlug(h, path, sub);
    while current != Nil
      invariant tree.nodes == h && tree.shape == old(tree.shape) == Plug(path, sub)
      invariant unchanged(tree)
      invariant current == Root(sub) && Represents(h, Plug(path, sub))
      invariant FindStd(tree.Content(), kv.key) == FindStd(Abs(h, sub), kv.key)
      invariant SetStd(tree.Content(), kv) == Plug(AbsPath(h, path), SetStd(Abs(h, sub), kv))
      invariant tree.Content() == Plug(AbsPath(h, path), Abs(h, sub))
      decreases Count(sub)
    {
      PlugParts(h, path, sub);
      var i := current.index;
      var comparison := Strcmp(kv.key, tree.nodes[i].userdata.key);
      if comparison < 0 {
        ghost var fr := WentFirst(i, sub.second);
        Descend(h, path, sub, fr, sub.first);
        path, sub := path + [fr], sub.first;
        current := tree.nodes[i].first;
      } else if comparison > 0 {
        ghost var fr := WentSecond(sub.first, i);
        Descend(h, path, sub, fr, sub.second);
        path, sub := path + [fr], sub.second;
        current := tree.nodes[i].second;
      } else {
        tree.nodes := tree.nodes[i := tree.nodes[i].(userdata := tree.nodes[i].userdata.(value := kv.value))];
        SetAtNode(h, tree.nodes, path, sub, kv);
        return true;
      }
    }
    return false;
  }

  // ---------------------------------------------------------------------
  // Insert (repaired)

  /** A new leaf, appended to the heap, hung from the empty `first` (or
      `second`) slot of node `sub.val`. */
  lemma {:induction false} AttachLeafShape(h: Heap, h': Heap, path: seq<Frame<nat>>, sub: Tree<nat>, fr: Frame<nat>, kv: KeyValue)
    requires Represents(h, Plug(path, sub)) && sub != Empty && sub.val < |h|
    requires fr == WentFirst(sub.val, sub.second) || fr == WentSecond(sub.first, sub.val)
    requires fr.WentFirst? ==> sub.first == Empty
    requires fr.WentSecond? ==> sub.second == Empty
    requires h' == h[sub.val := Retarget(h[sub.val], fr, Ref(|h|))] + [NodeRecord(kv, Nil, Nil)]
    ensures Represents(h', Plug(path + [fr], Node(Empty, |h|, Empty)))
    ensures AbsPath(h', path + [fr]) == AbsPath(h, path + [fr])
  {
    var path' := path + [fr];
    PlugSnoc(path, fr, Empty);
    assert Attach(fr, Empty) == sub;
    RepresentsBounds(h, Plug(path, sub));
    IdsPlug(path', Empty);
    assert Agree(h, h', PathIds(path') - {sub.val});
    Replace(h, h', path', Empty, Node(Empty, |h|, Empty));
  }

  /** The new leaf holds `kv`; the tree has one node more and the same
      root. */
  lemma {:induction false} AttachLeaf(h: Heap, h': Heap, path: seq<Frame<nat>>, sub: Tree<nat>, fr: Frame<nat>, kv: KeyValue)
    requires sub != Empty
    requires fr == WentFirst(sub.val, sub.second) || fr == WentSecond(sub.first, sub.val)
    requires fr.WentFirst? ==> sub.first == Empty
    requires fr.WentSecond? ==> sub.second == Empty
    requires |h'| == |h| + 1 && h'[|h|] == NodeRecord(kv, Nil, Nil)
    requires AbsPath(h', path + [fr]) == AbsPath(h, path + [fr])
    ensures Abs(h', Plug(path + [fr], Node(Empty, |h|, Empty))) ==
      Plug(AbsPath(h, path), Attach(AbsFrame(h, fr), Node(Empty, kv, Empty)))
    ensures Count(Plug(path + [fr], Node(Empty, |h|, Empty))) == Count(Plug(path, sub)) + 1
    ensures Root(Plug(path + [fr], Node(Empty, |h|, Empty))) == Root(Plug(path, sub))
  {
    var leaf: Tree<nat> := Node(Empty, |h|, Empty);
    var path' := path + [fr];
    AbsPlug(h', path', leaf);
    assert Abs(h', leaf) == Node(Empty, kv, Empty);
    AbsPathSnoc(h, path, fr);
    PlugSnoc(AbsPath(h, path), AbsFrame(h, fr), Node(Empty, kv, Empty));
    PlugSnoc(path, fr, Empty);
    assert Attach(fr, Empty) == sub;
    PlugCount(path', Empty, leaf);
    PlugSnoc(path, fr, leaf);
    if path != [] {
      RootOfPlug(path, sub);
      RootOfPlug(path, Attach(fr, leaf));
    }
  }

  /** A new leaf holding `kv`, appended to the heap, as a whole tree. */
  lemma {:induction false} NewRootLeaf(h: Heap, h': Heap, kv: KeyValue)
    requires h' == h + [NodeRecord(kv, Nil, Nil)]
    ensures Represents(h', Node(Empty, |h|, Empty))
    ensures Abs(h', Node(Empty, |h|, Empty)) == InsertIns(Empty, kv)
  {
    assert h'[|h|] == NodeRecord(kv, Nil, Nil);
  }

  /** One step down the descent of `Insert`: towards `first` when the
      node's key is below `kv`'s, towards `second` when above. The lookup,
      the insertion and the contents are those of the child's subtree in
      its place. */
  lemma {:induction false} InsDescend(h: Heap, path: seq<Frame<nat>>, sub: Tree<nat>, fr: Frame<nat>, kv: KeyValue)
    requires sub != Empty && sub.val < |h|
    requires (fr == WentFirst(sub.val, sub.second) && Strcmp(h[sub.val].userdata.key, kv.key) < 0) ||
             (fr == WentSecond(sub.first, sub.val) && Strcmp(h[sub.val].userdata.key, kv.key) > 0)
    ensures Plug(path + [fr], Next(sub, fr)) == Plug(path, sub)
    ensures FindIns(Abs(h, sub), kv.key) == FindIns(Abs(h, Next(sub, fr)), kv.key)
    ensures Plug(AbsPath(h, path), InsertIns(Abs(h, sub), kv)) ==
      Plug(AbsPath(h, path + [fr]), InsertIns(Abs(h, Next(sub, fr)), kv))
    ensures Plug(AbsPath(h, path), Abs(h, sub)) == Plug(AbsPath(h, path + [fr]), Abs(h, Next(sub, fr)))
  {
    Descend(h, path, sub, fr, Next(sub, fr));
  }

  /** The child of `sub` that the step `fr` moves to. */
  function Next(sub: Tree<nat>, fr: Frame<nat>): Tree<nat>
    requires sub != Empty
  {
    if fr.WentFirst? then sub.first else sub.second
  }

  /** The descent of `Insert` ends at an empty child slot: the key is not
      stored below, and the insertion hangs a leaf there. */
  lemma {:induction false} InsAtLeaf(h: Heap, sub: Tree<nat>, fr: Frame<nat>, kv: KeyValue)
    requires sub != Empty && sub.val < |h|
    requires (fr == WentFirst(sub.val, sub.second) && Strcmp(h[sub.val].userdata.key, kv.key) < 0 && sub.first == Empty) ||
             (fr == WentSecond(sub.first, sub.val) && Strcmp(h[sub.val].userdata.key, kv.key) > 0 && sub.second == Empty)
    ensures FindIns(Abs(h, sub), kv.key).None?
    ensures InsertIns(Abs(h, sub), kv) == Attach(AbsFrame(h, fr), Node(Empty, kv, Empty))
  {
    assert Abs(h, sub) == Node(Abs(h, sub.first), Val(h, sub.val), Abs(h, sub.second));
  }

  /** The new leaf of `Insert`: a node holding `kv` appended to the heap
      and hung from the empty child slot of node `i` that `fr` names. */
  method HangLeaf(tree: BinaryTree, kv: KeyValue, i: nat, onFirst: bool,
                  ghost path: seq<Frame<nat>>, ghost sub: Tree<nat>, ghost fr: Frame<nat>)
    modifies tree
    requires tree.Valid() && tree.shape == Plug(path, sub)
    requires sub != Empty && sub.val == i && i < |tree.nodes|
    requires fr == if onFirst then WentFirst(i, sub.second) else WentSecond(sub.first, i)
    requires if onFirst then sub.first == Empty else sub.second == Empty
    ensures tree.Valid() && tree.root == old(tree.root) && tree.size == old(tree.size) + 1
    ensures tree.Content() ==
      Plug(AbsPath(old(tree.nodes), path), Attach(AbsFrame(old(tree.nodes), fr), Node(Empty, kv, Empty)))
  {
    ghost var h := tree.nodes;
    var leaf := |tree.nodes|;
    if onFirst {
      tree.nodes := tree.nodes[i := tree.nodes[i].(first := Ref(leaf))] + [NodeRecord(kv, Nil, Nil)];
    } else {
      tree.nodes := tree.nodes[i := tree.nodes[i].(second := Ref(leaf))] + [NodeRecord(kv, Nil, Nil)];
    }
    AttachLeafShape(h, tree.nodes, path, sub, fr, kv);
    AttachLeaf(h, tree.nodes, path, sub, fr, kv);
    tree.shape := Plug(path + [fr], Node(Empty, leaf, Empty));
    tree.size := tree.size + 1;
  }

  /** `GenUtils_BinaryTreeInsert`, repaired: a key its descent finds is
      refused with no change; otherwise a new leaf holding the record goes
      into the empty slot where the descent stops (the root slot of an
      empty tree) and the size grows by one. */
  method Insert(tree: BinaryTree?, kv: KeyValue) returns (inserted: bool)
    modifies tree
    requires tree != null ==> tree.Valid()
    ensures tree != null ==> tree.Valid() && tree.Content() == InsertIns(old(tree.Content()), kv)
    ensures inserted <==> tree != null && FindIns(old(tree.Content()), kv.key).None?
    ensures tree != null ==> tree.size == old(tree.size) + if inserted then 1 else 0
    ensures tree != null && !inserted ==> unchanged(tree)
  {
    if tree == null {
      return false;
    }
    var current := RootOf(tree);
    ghost var h := tree.nodes;
    ghost var path: seq<Frame<nat>> := [];
    ghost var sub := tree.shape;
    AbsPlug(h, path, sub);
    while current != Nil
      invariant tree.nodes == h && tree.shape == old(tree.shape) == Plug(path, sub)
      invariant unchanged(tree)
      invariant current == Root(sub) && Represents(h, Plug(path, sub))
      invariant path != [] ==> sub != Empty
      invariant FindIns(tree.Content(), kv.key) == FindIns(Abs(h, sub), kv.key)
      invariant InsertIns(tree.Content(), kv) == Plug(AbsPath(h, path), InsertIns(Abs(h, sub), kv))
      invariant tree.Content() == Plug(AbsPath(h, path), Abs(h, sub))
      decreases Count(sub)
    {
      PlugParts(h, path, sub);
      var i := current.index;
      var comparison := Strcmp(tree.nodes[i].userdata.key, kv.key);
      if comparison == 0 {
        return false;
      } else if comparison < 0 {
        ghost var fr := WentFirst(i, sub.second);
        if tree.nodes[i].first == Nil {
          InsAtLeaf(h, sub, fr, kv);
          HangLeaf(tree, kv, i, true, path, sub, fr);
          return true;
        }
        InsDescend(h, path, sub, fr, kv);
        path, sub := path + [fr], sub.first;
        current := tree.nodes[i].first;
      } else {
        ghost var fr := WentSecond(sub.first, i);
        if tree.nodes[i].second == Nil {
          InsAtLeaf(h, sub, fr, kv);
          HangLeaf(tree, kv, i, false, path, sub, fr);
          return true;
        }
        InsDescend(h, path, sub, fr, kv);
        path, sub := path + [fr], sub.second;
        current := tree.nodes[i].second;
      }
    }
    // Reached only for an empty tree: the repair makes the new leaf the
    // root.
    assert path == [] && sub == Empty;
    assert old(tree.Content()) == Empty;
    var leaf := |tree.nodes|;
    tree.nodes := tree.nodes + [NodeRecord(kv, Nil, Nil)];
    NewRootLeaf(h, tree.nodes, kv);
    tree.shape := Node(Empty, leaf, Empty);
    tree.root := Ref(leaf);
    tree.size := 1;
    return true;
  }

  // ---------------------------------------------------------------------
  // Remove

  /** The one-child case: the parent's link (or the root pointer) now
      points at the only child of the removed node. */
  lemma {:induction false} UnlinkOneChild(h: Heap, h': Heap, path: seq<Frame<nat>>, sub: Tree<nat>, sub': Tree<nat>)
    requires Represents(h, Plug(path, sub)) && sub != Empty
    requires sub.first == Empty || sub.second == Empty
    requires sub' == if sub.first != Empty then sub.first else sub.second
    requires path != [] ==> path[|path| - 1].val < |h|
    requires h' == if path == [] then h else RedirectParent(h, Ref(path[|path| - 1].val), Root(sub), Root(sub'))
    ensures Represents(h', Plug(path, sub'))
    ensures Abs(h', Plug(path, sub')) == Plug(AbsPath(h, path), Abs(h, sub'))
    ensures Count(Plug(path, sub')) + 1 == Count(Plug(path, sub))
    ensures Root(Plug(path, sub')) == if path == [] then Root(sub') else Root(Plug(path, sub))
  {
    PlugParts(h, path, sub);
    PlugCount(path, sub, sub');
    if path != [] {
      var p := path[|path| - 1].val;
      IdsPlug(path, sub);
      RepresentsBounds(h, Plug(path, sub));
      RedirectIsRetarget(h, path, sub, Root(sub'));
      assert Agree(h, h', Ids(sub'));
      FrameRepresents(h, h', sub');
      assert Agree(h, h', PathIds(path) - {p});
      Replace(h, h', path, sub, sub');
      AbsPlug(h', path, sub');
      RootOfPlug(path, sub);
      RootOfPlug(path, sub');
    }
  }

  /** With the key at the root of `sub`, its only child is what `RemoveStd`
      leaves. */
  lemma {:induction false} RemoveOneChild(h: Heap, sub: Tree<nat>, sub': Tree<nat>, key: Key)
    requires sub != Empty && (sub.first == Empty || sub.second == Empty)
    requires sub' == if sub.first != Empty then sub.first else sub.second
    requires Strcmp(key, Val(h, sub.val).key) == 0
    ensures Abs(h, sub') == RemoveStd(Abs(h, sub), key)
  {
    assert Abs(h, sub) == Node(Abs(h, sub.first), Val(h, sub.val), Abs(h, sub.second));
  }

  /** The two-child case: the last node `r` of the `first` subtree takes
      the removed node's place. */
  lemma {:induction false} PromoteInPlace(h: Heap, h1: Heap, h': Heap, path: seq<Frame<nat>>, sub: Tree<nat>,
                                          path2: seq<Frame<nat>>, g: Tree<nat>, r: nat, prevRep: Link)
    requires Represents(h, Plug(path, sub)) && sub != Empty && sub.val < |h|
    requires sub.first == Plug(path2, Node(g, r, Empty)) && AllSecond(path2)
    requires prevRep == if path2 == [] then Nil else Ref(path2[|path2| - 1].val)
    requires r < |h| && (prevRep.Ref? ==> prevRep.index < |h|)
    requires path != [] ==> path[|path| - 1].val < |h|
    requires h1 == if path == [] then h else RedirectParent(h, Ref(path[|path| - 1].val), Root(sub), Ref(r))
    requires h' == Relink(h1, sub.val, r, prevRep)
    ensures Represents(h', Plug(path, Node(Plug(path2, g), r, sub.second)))
    ensures AbsPath(h', path) == AbsPath(h, path)
    ensures |h'| == |h| && forall k | 0 <= k < |h| :: h'[k].userdata == h[k].userdata
  {
    var sub' := Node(Plug(path2, g), r, sub.second);
    PlugParts(h, path, sub);
    IdsPlug(path, sub);
    RepresentsBounds(h, Plug(path, sub));
    if path != [] {
      RedirectIsRetarget(h, path, sub, Ref(r));
    }
    assert Agree(h, h1, Ids(sub));
    FrameRepresents(h, h1, sub);
    PromoteLast(h1, sub.first, sub.val, sub.second, path2, g, r, prevRep);
    if path != [] {
      var p := path[|path| - 1].val;
      assert Agree(h, h', PathIds(path) - {p});
      Replace(h, h', path, sub, sub');
    }
  }

  /** The contents, size and root after the two-child case. */
  lemma {:induction false} PromoteContents(h: Heap, h': Heap, path: seq<Frame<nat>>, sub: Tree<nat>,
                                           path2: seq<Frame<nat>>, g: Tree<nat>, r: nat, key: Key)
    requires sub != Empty && sub.second != Empty
    requires sub.first == Plug(path2, Node(g, r, Empty)) && AllSecond(path2)
    requires AbsPath(h', path) == AbsPath(h, path)
    requires |h'| == |h| && forall k | 0 <= k < |h| :: h'[k].userdata == h[k].userdata
    requires Strcmp(key, Val(h, sub.val).key) == 0
    ensures Abs(h', Plug(path, Node(Plug(path2, g), r, sub.second))) ==
      Plug(AbsPath(h, path), RemoveStd(Abs(h, sub), key))
    ensures Count(Plug(path, Node(Plug(path2, g), r, sub.second))) + 1 == Count(Plug(path, sub))
    ensures Root(Plug(path, Node(Plug(path2, g), r, sub.second))) ==
      if path == [] then Ref(r) else Root(Plug(path, sub))
  {
    var sub' := Node(Plug(path2, g), r, sub.second);
    LastAlongSecondPath(path2, g, r);
    AbsDropLast(h, sub.first);
    DropLastInOrder(sub.first);
    SameValsAbs(h, h', sub');
    assert Abs(h, sub) == Node(Abs(h, sub.first), Val(h, sub.val), Abs(h, sub.second));
    AbsPlug(h', path, sub');
    PlugCount(path, sub, sub');
    if path != [] {
      RootOfPlug(path, sub);
      RootOfPlug(path, sub');
    }
  }

  /** The search loop of removal: the node holding the key (or NULL) and
      its parent, with the path from the root down to it. */
  method Search(tree: BinaryTree, key: Key) returns (current: Link, previous: Link,
                                                    ghost path: seq<Frame<nat>>, ghost sub: Tree<nat>)
    requires tree.Valid()
    ensures tree.shape == Plug(path, sub) && current == Root(sub)
    ensures previous == if path == [] then Nil else Ref(path[|path| - 1].val)
    ensures FindStd(tree.Content(), key) == FindStd(Abs(tree.nodes, sub), key)
    ensures RemoveStd(tree.Content(), key) == Plug(AbsPath(tree.nodes, path), RemoveStd(Abs(tree.nodes, sub), key))
    ensures current != Nil ==> Strcmp(key, Val(tree.nodes, current.index).key) == 0
  {
    current := tree.root;
    previous := Nil;
    ghost var h := tree.nodes;
    path, sub := [], tree.shape;
    AbsPlug(h, path, sub);
    while current != Nil
      invariant tree.shape == Plug(path, sub)
      invariant current == Root(sub) && Represents(h, Plug(path, sub))
      invariant previous == if path == [] then Nil else Ref(path[|path| - 1].val)
      invariant FindStd(tree.Content(), key) == FindStd(Abs(h, sub), key)
      invariant RemoveStd(tree.Content(), key) == Plug(AbsPath(h, path), RemoveStd(Abs(h, sub), key))
      decreases Count(sub)
    {
      PlugParts(h, path, sub);
      var i := current.index;
      var comparison := Strcmp(key, tree.nodes[i].userdata.key);
      if comparison < 0 {
        ghost var fr := WentFirst(i, sub.second);
        Descend(h, path, sub, fr, sub.first);
        path, sub := path + [fr], sub.first;
        previous := current;
        current := tree.nodes[i].first;
      } else if comparison > 0 {
        ghost var fr := WentSecond(sub.first, i);
        Descend(h, path, sub, fr, sub.second);
        path, sub := path + [fr], sub.second;
        previous := current;
        current := tree.nodes[i].second;
      } else {
        return;
      }
    }
  }

  /** The inner loop of the two-child case: from the `first` child of node
      `sub.val`, follow `second` links to the last node `r` of that
      subtree; `prevRep` is the node before it, NULL when `r` is the
      `first` child itself. */
  method FindReplacement(tree: BinaryTree, i: nat, ghost sub: Tree<nat>)
      returns (rep: Link, prevRep: Link, ghost path2: seq<Frame<nat>>, ghost g: Tree<nat>)
    requires Represents(tree.nodes, sub) && sub != Empty && sub.val == i && sub.first != Empty
    ensures rep.Ref? && sub.first == Plug(path2, Node(g, rep.index, Empty)) && AllSecond(path2)
    ensures prevRep == if path2 == [] then Nil else Ref(path2[|path2| - 1].val)
    ensures rep.index < |tree.nodes| && (prevRep.Ref? ==> prevRep.index < |tree.nodes|)
  {
    ghost var h := tree.nodes;
    RepresentsBounds(h, sub);
    rep := tree.nodes[i].first;
    prevRep := Nil;
    path2 := [];
    ghost var sub2 := sub.first;
    while tree.nodes[rep.index].second != Nil
      invariant rep == Root(sub2) && sub2 != Empty && Represents(h, sub2)
      invariant sub.first == Plug(path2, sub2) && AllSecond(path2)
      invariant prevRep == if path2 == [] then Nil else Ref(path2[|path2| - 1].val)
      invariant prevRep.Ref? ==> prevRep.index < |h|
      decreases Count(sub2)
    {
      ghost var fr := WentSecond(sub2.first, sub2.val);
      PlugSnoc(path2, fr, sub2.second);
      assert Attach(fr, sub2.second) == sub2;
      prevRep := rep;
      path2, sub2 := path2 + [fr], sub2.second;
      rep := tree.nodes[rep.index].second;
    }
    g := sub2.first;
    assert sub2 == Node(g, rep.index, Empty);
  }

  /** The one-child case of removal: the parent's link, or the root
      pointer, takes the removed node's only child (or NULL). */
  method UnlinkSingle(tree: BinaryTree, current: Link, previous: Link,
                      ghost path: seq<Frame<nat>>, ghost sub: Tree<nat>, key: Key)
    modifies tree
    requires tree.Valid() && tree.shape == Plug(path, sub)
    requires current == Root(sub) && sub != Empty && (sub.first == Empty || sub.second == Empty)
    requires previous == if path == [] then Nil else Ref(path[|path| - 1].val)
    requires Strcmp(key, Val(tree.nodes, sub.val).key) == 0
    ensures tree.Valid() && tree.size == old(tree.size) - 1
    ensures tree.Content() == Plug(AbsPath(old(tree.nodes), path), RemoveStd(Abs(old(tree.nodes), sub), key))
  {
    ghost var h := tree.nodes;
    PlugParts(h, path, sub);
    if path != [] {
      RedirectIsRetarget(h, path, sub, Nil);
    }
    var i := current.index;
    var replace := if tree.nodes[i].first != Nil then tree.nodes[i].first else tree.nodes[i].second;
    ghost var sub' := if sub.first != Empty then sub.first else sub.second;
    if previous == Nil {
      tree.root := replace;
    } else {
      tree.nodes := RedirectParent(tree.nodes, previous, current, replace);
    }
    UnlinkOneChild(h, tree.nodes, path, sub, sub');
    RemoveOneChild(h, sub, sub', key);
    tree.shape := Plug(path, sub');
    tree.size := tree.size - 1;
  }

  /** The two-child case of removal: the last node of the `first` subtree
      takes the removed node's place in its parent (or as the root). */
  method UnlinkDouble(tree: BinaryTree, current: Link, previous: Link,
                      ghost path: seq<Frame<nat>>, ghost sub: Tree<nat>, key: Key)
    modifies tree
    requires tree.Valid() && tree.shape == Plug(path, sub)
    requires current == Root(sub) && sub != Empty && sub.first != Empty && sub.second != Empty
    requires previous == if path == [] then Nil else Ref(path[|path| - 1].val)
    requires Strcmp(key, Val(tree.nodes, sub.val).key) == 0
    ensures tree.Valid() && tree.size == old(tree.size) - 1
    ensures tree.Content() == Plug(AbsPath(old(tree.nodes), path), RemoveStd(Abs(old(tree.nodes), sub), key))
  {
    ghost var h := tree.nodes;
    PlugParts(h, path, sub);
    RepresentsBounds(h, sub);
    if path != [] {
      RedirectIsRetarget(h, path, sub, Nil);
    }
    var i := current.index;
    var rep, prevRep, path2, g := FindReplacement(tree, i, sub);
    if previous == Nil {
      tree.root := rep;
    } else {
      tree.nodes := RedirectParent(tree.nodes, previous, current, rep);
    }
    ghost var h1 := tree.nodes;
    tree.nodes := Relink(tree.nodes, i, rep.index, prevRep);
    PromoteInPlace(h, h1, tree.nodes, path, sub, path2, g, rep.index, prevRep);
    PromoteContents(h, tree.nodes, path, sub, path2, g, rep.index, key);
    tree.shape := Plug(path, Node(Plug(path2, g), rep.index, sub.second));
    tree.size := tree.size - 1;
  }

  /** The removal shared by `GenUtils_BinaryTreeRemove` and
      `GenUtils_BinaryTreeRemoveBool`: the descent "key < node key goes to
      `first`" looks for the key; the record it finds is unlinked, its
      only child or else the last node of its `first` subtree taking its
      place, and the size drops by one. */
  method Delete(tree: BinaryTree?, key: Key) returns (removed: Option<KeyValue>)
    modifies tree
    requires tree != null ==> tree.Valid()
    ensures tree != null ==> tree.Valid() && tree.Content() == RemoveStd(old(tree.Content()), key)
    ensures removed == if tree == null then None else FindStd(old(tree.Content()), key)
    ensures tree != null ==> tree.size == old(tree.size) - if removed.Some? then 1 else 0
    ensures tree != null && removed.None? ==> unchanged(tree)
  {
    if tree == null {
      return None;
    }
    ghost var h := tree.nodes;
    var current, previous, path, sub := Search(tree, key);
    AbsPlug(h, path, sub);
    if current == Nil {
      return None;
    }
    PlugParts(h, path, sub);
    var i := current.index;
    removed := Some(tree.nodes[i].userdata);
    assert Abs(h, sub) == Node(Abs(h, sub.first), Val(h, i), Abs(h, sub.second));
    if tree.nodes[i].first == Nil || tree.nodes[i].second == Nil {
      UnlinkSingle(tree, current, previous, path, sub, key);
    } else {
      UnlinkDouble(tree, current, previous, path, sub, key);
    }
  }

  /** `GenUtils_BinaryTreeRemove`: the removed record's value, or NULL. */
  method Remove(tree: BinaryTree?, key: Key) returns (value: Ptr)
    modifies tree
    requires tree != null ==> tree.Valid()
    ensures tree != null ==> tree.Valid() && tree.Content() == RemoveStd(old(tree.Content()), key)
    ensures value == if tree == null || FindStd(old(tree.Content()), key).None? then Null
                     else FindStd(old(tree.Content()), key).value.value
  {
    var removed := Delete(tree, key);
    value := if removed.Some? then removed.value.value else Null;
  }

  /** `GenUtils_BinaryTreeRemoveBool`: true iff a record was removed. */
  method RemoveBool(tree: BinaryTree?, key: Key) returns (done: bool)
    modifies tree
    requires tree != null ==> tree.Valid()
    ensures tree != null ==> tree.Valid() && tree.Content() == RemoveStd(old(tree.Content()), key)
    ensures done <==> tree != null && FindStd(old(tree.Content()), key).Some?
  {
    var removed := Delete(tree, key);
    done := removed.Some?;
  }

  // ---------------------------------------------------------------------
  // Traversals (the helpers as their names describe them; the code as
  // written is modelled in `BinaryTreeAsWritten`)

  /** The records visited from `node` on, self before `first` before
      `second`; nothing for a NULL visitor. */
  function PreorderFrom(h: Heap, node: Link, ghost t: Tree<nat>, visitor: bool): (visited: seq<KeyValue>)
    requires Represents(h, t) && node == Root(t)
    ensures visited == if visitor then PreOrder(Abs(h, t)) else []
    decreases t
  {
    if node == Nil || !visitor then []
    else
      [h[node.index].userdata] + PreorderFrom(h, h[node.index].first, t.first, visitor)
      + PreorderFrom(h, h[node.index].second, t.second, visitor)
  }

  /** The records visited from `node` on, `first` before self before
      `second`. */
  function InorderFrom(h: Heap, node: Link, ghost t: Tree<nat>, visitor: bool): (visited: seq<KeyValue>)
    requires Represents(h, t) && node == Root(t)
    ensures visited == if visitor then InOrder(Abs(h, t)) else []
    decreases t
  {
    if node == Nil || !visitor then []
    else
      InorderFrom(h, h[node.index].first, t.first, visitor) + [h[node.index].userdata]
      + InorderFrom(h, h[node.index].second, t.second, visitor)
  }

  /** The records visited from `node` on, `first` before `second` before
      self. */
  function PostorderFrom(h: Heap, node: Link, ghost t: Tree<nat>, visitor: bool): (visited: seq<KeyValue>)
    requires Represents(h, t) && node == Root(t)
    ensures visited == if visitor then PostOrder(Abs(h, t)) else []
    decreases t
  {
    if node == Nil || !visitor then []
    else
      PostorderFrom(h, h[node.index].first, t.first, visitor)
      + PostorderFrom(h, h[node.index].second, t.second, visitor) + [h[node.index].userdata]
  }

  /** `GenUtils_BinaryTreePreorder`: the sequence of visitor calls. */
  function Preorder(tree: BinaryTree?, visitor: bool): (visited: seq<KeyValue>)
    reads tree
    requires tree != null ==> tree.Valid()
    ensures visited == if tree == null || !visitor then [] else PreOrder(tree.Content())
  {
    if tree == null then [] else PreorderFrom(tree.nodes, RootOf(tree), tree.shape, visitor)
  }

  /** `GenUtils_BinaryTreeInorder`: the sequence of visitor calls. */
  function Inorder(tree: BinaryTree?, visitor: bool): (visited: seq<KeyValue>)
    reads tree
    requires tree != null ==> tree.Valid()
    ensures visited == if tree == null || !visitor then [] else InOrder(tree.Content())
  {
    if tree == null then [] else InorderFrom(tree.nodes, RootOf(tree), tree.shape, visitor)
  }

  /** `GenUtils_BinaryTreePostorder`: the sequence of visitor calls. */
  function Postorder(tree: BinaryTree?, visitor: bool): (visited: seq<KeyValue>)
    reads tree
    requires tree != null ==> tree.Valid()
    ensures visited == if tree == null || !visitor then [] else PostOrder(tree.Content())
  {
    if tree == null then [] else PostorderFrom(tree.nodes, RootOf(tree), tree.shape, visitor)
  }

  /** Each traversal of a tree calls the visitor once per stored record. */
  lemma {:induction false} TraversalsVisitEveryRecordOnce(tree: BinaryTree)
    requires tree.Valid()
    ensures multiset(Preorder(tree, true)) == Bag(tree.Content()) && |Preorder(tree, true)| == GetSize(tree)
    ensures multiset(Inorder(tree, true)) == Bag(tree.Content()) && |Inorder(tree, true)| == GetSize(tree)
    ensures multiset(Postorder(tree, true)) == Bag(tree.Content()) && |Postorder(tree, true)| == GetSize(tree)
  {
    PreOrderVisitsEveryNodeOnce(tree.Content());
    InOrderVisitsEveryNodeOnce(tree.Content());
    PostOrderVisitsEveryNodeOnce(tree.Content());
  }

  // ---------------------------------------------------------------------
  // ToArray, FromArray, Balance, Clear

  /** `GenUtils_BinaryTreeToArray`: an array of `GetSize` records, filled
      by `GenUtils_BinaryTreeInternalToArray` at an increasing index in
      in-order sequence. */
  method ToArray(tree: BinaryTree?) returns (a: array<KeyValue>)
    requires tree != null ==> tree.Valid()
    ensures fresh(a) && a.Length == GetSize(tree)
    ensures a[..] == if tree == null then [] else InOrder(tree.Content())
  {
    var visited := Inorder(tree, true);
    if tree != null {
      InOrderVisitsEveryNodeOnce(tree.Content());
    }
    a := new KeyValue[GetSize(tree)];
    var i := 0;
    while i < |visited|
      invariant 0 <= i <= |visited| == a.Length
      invariant a[..i] == visited[..i]
    {
      a[i] := visited[i];
      i := i + 1;
    }
    assert a[..] == a[..i] && visited[..i] == visited;
  }

  /** `GenUtils_BinaryTreeFromArray`: a new tree with the first `size`
      records inserted front to back, or NULL (the partial tree destroyed)
      as soon as one insertion is refused. */
  method FromArray(arr: array<KeyValue>, size: nat) returns (tree: BinaryTree?)
    requires size <= arr.Length
    ensures tree == null <==> InsertAll(Empty, arr[..size]).None?
    ensures tree != null ==> fresh(tree) && tree.Valid() && InsertAll(Empty, arr[..size]) == Some(tree.Content())
  {
    var t := new BinaryTree();
    var i := 0;
    while i < size
      invariant 0 <= i <= size
      invariant fresh(t) && t.Valid()
      invariant InsertAll(Empty, arr[..size]) == InsertAll(t.Content(), arr[i..size])
      decreases size - i
    {
      assert arr[i..size] == [arr[i]] + arr[i + 1..size];
      var ok := Insert(t, arr[i]);
      if !ok {
        Clear(t);
        return null;
      }
      i := i + 1;
    }
    return t;
  }

  /** `GenUtils_BinaryTreeBalance`: the tree rebuilt from its in-order
      array, and the old tree destroyed. Since every key of a tree built
      by `Insert` is refused by no insertion of the rebuild, the result is
      never NULL for such a tree, and it is a chain of `second` links with
      the same in-order sequence. */
  method Balance(tree: BinaryTree) returns (balanced: BinaryTree?)
    modifies tree
    requires tree.Valid()
    ensures tree.Valid() && tree.Content() == Empty
    ensures balanced == null <==> InsertAll(Empty, InOrder(old(tree.Content()))).None?
    ensures balanced != null ==>
      fresh(balanced) && balanced.Valid() &&
      InsertAll(Empty, InOrder(old(tree.Content()))) == Some(balanced.Content())
    ensures OrderedIns(old(tree.Content())) ==>
      balanced != null && balanced.Content() == Chain(InOrder(old(tree.Content())))
  {
    var arr := ToArray(tree);
    balanced := FromArray(arr, tree.size);
    assert arr[..tree.size] == arr[..];
    if OrderedIns(tree.Content()) {
      RebuildIsChain(tree.Content());
    }
    Clear(tree);
  }

  /** `GenUtils_BinaryTreeInternalClear`: the nodes freed from `node` on,
      both subtrees before the node itself. */
  function ClearFrom(h: Heap, node: Link, ghost t: Tree<nat>): (freed: seq<nat>)
    requires Represents(h, t) && node == Root(t)
    ensures freed == PostOrder(t)
    decreases t
  {
    if node == Nil then []
    else ClearFrom(h, h[node.index].first, t.first) + ClearFrom(h, h[node.index].second, t.second) + [node.index]
  }

  /** Clearing frees every node of the tree exactly once. */
  lemma {:induction false} ClearFreesEveryNodeOnce(tree: BinaryTree)
    requires tree.Valid()
    ensures multiset(ClearFrom(tree.nodes, tree.root, tree.shape)) == Bag(tree.shape)
    ensures |ClearFrom(tree.nodes, tree.root, tree.shape)| == tree.size
  {
    PostOrderVisitsEveryNodeOnce(tree.shape);
  }

  /** `GenUtils_BinaryTreeClear`: every node is freed and the tree is left
      with no root and size 0. */
  method Clear(tree: BinaryTree)
    modifies tree
    requires tree.Valid()
    ensures tree.Valid() && tree.Content() == Empty
    ensures tree.root == Nil && tree.size == 0 && tree.nodes == old(tree.nodes)
  {
    var freed := ClearFrom(tree.nodes, RootOf(tree), tree.shape);
    tree.root := Nil;
    tree.size := 0;
    tree.shape := Empty;
  }
}
