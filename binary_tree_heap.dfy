/** The nodes of a binary tree as records in a heap, and the shape (a tree
    of node indices) that the links of those records describe.

    A `GenUtils_DoubleNode` holds a pointer to its key/value record and two
    child pointers, `first` and `second`. Here the heap is a sequence of node
    records and a child pointer is a `Link` to a position of it. The ghost
    shape `Tree<nat>` names the node at each position of the tree;
    `Represents(h, t)` says that the links of `h` describe exactly `t`, with
    every node reached once, and `Abs(h, t)` is the tree of key/value records
    the user sees. */
module BinaryTreeHeap {
  import opened CTypes
  import opened Trees
  import opened BinaryTreeSpec

  datatype NodeRecord = NodeRecord(userdata: KeyValue, first: Link, second: Link)

  type Heap = seq<NodeRecord>

  function Ids(t: Tree<nat>): set<nat> {
    match t
    case Empty => {}
    case Node(f, i, s) => Ids(f) + {i} + Ids(s)
  }

  /** The pointer to the root node of a shape: NULL for the empty tree. */
  function Root(t: Tree<nat>): Link {
    match t
    case Empty => Nil
    case Node(_, i, _) => Ref(i)
  }

  /** The links of `h` describe the shape `t`: each node's `first` and
      `second` point at the roots of its subtrees, and no node occurs
      twice. */
  predicate Represents(h: Heap, t: Tree<nat>) {
    match t
    case Empty => true
    case Node(f, i, s) =>
      i < |h| && h[i].first == Root(f) && h[i].second == Root(s) &&
      i !in Ids(f) && i !in Ids(s) && Ids(f) !! Ids(s) &&
      Represents(h, f) && Represents(h, s)
  }

  /** The key/value record of node `i`. */
  function Val(h: Heap, i: nat): KeyValue {
    if i < |h| then h[i].userdata else KeyValue([], Null)
  }

  /** The tree of key/value records that shape `t` holds in `h`. */
  function Abs(h: Heap, t: Tree<nat>): Tree<KeyValue> {
    match t
    case Empty => Empty
    case Node(f, i, s) => Node(Abs(h, f), Val(h, i), Abs(h, s))
  }

  /** `h'` has the same records as `h` at the positions `S`. */
  ghost predicate Agree(h: Heap, h': Heap, S: set<nat>) {
    forall i | i in S :: i < |h| && i < |h'| && h'[i] == h[i]
  }

  function FrameIds(fr: Frame<nat>): set<nat> {
    match fr
    case WentFirst(i, s) => {i} + Ids(s)
    case WentSecond(f, i) => Ids(f) + {i}
  }

  /** The nodes of a path: those left behind and their subtrees not taken. */
  function PathIds(path: seq<Frame<nat>>): set<nat>
    decreases |path|
  {
    if path == [] then {} else PathIds(path[..|path| - 1]) + FrameIds(path[|path| - 1])
  }

  function AbsFrame(h: Heap, fr: Frame<nat>): Frame<KeyValue> {
    match fr
    case WentFirst(i, s) => WentFirst(Val(h, i), Abs(h, s))
    case WentSecond(f, i) => WentSecond(Abs(h, f), Val(h, i))
  }

  function AbsPath(h: Heap, path: seq<Frame<nat>>): seq<Frame<KeyValue>>
    decreases |path|
  {
    if path == [] then [] else AbsPath(h, path[..|path| - 1]) + [AbsFrame(h, path[|path| - 1])]
  }

  /** Node record `rec` with the child link of direction `fr` set to `link`. */
  function Retarget(rec: NodeRecord, fr: Frame<nat>, link: Link): NodeRecord {
    if fr.WentFirst? then rec.(first := link) else rec.(second := link)
  }

  // ---------------------------------------------------------------------
  // Frames: what a heap update leaves intact

  lemma {:induction false} RepresentsBounds(h: Heap, t: Tree<nat>)
    requires Represents(h, t)
    ensures forall i | i in Ids(t) :: i < |h|
  {
    match t
    case Empty =>
    case Node(f, i, s) =>
      RepresentsBounds(h, f);
      RepresentsBounds(h, s);
  }

  /** A shape stays represented, with the same contents, by a heap that
      agrees on its nodes. */
  lemma {:induction false} FrameRepresents(h: Heap, h': Heap, t: Tree<nat>)
    requires Represents(h, t) && Agree(h, h', Ids(t))
    ensures Represents(h', t)
    ensures Abs(h', t) == Abs(h, t)
  {
    match t
    case Empty =>
    case Node(f, i, s) =>
      FrameRepresents(h, h', f);
      FrameRepresents(h, h', s);
  }

  lemma {:induction false} FrameAbs(h: Heap, h': Heap, t: Tree<nat>)
    requires Agree(h, h', Ids(t))
    ensures Abs(h', t) == Abs(h, t)
  {
    match t
    case Empty =>
    case Node(f, i, s) =>
      FrameAbs(h, h', f);
      FrameAbs(h, h', s);
  }

  /** Changing only key/value records keeps every shape represented. */
  lemma {:induction false} LinksFrame(h: Heap, h': Heap, t: Tree<nat>)
    requires Represents(h, t) && |h'| == |h|
    requires forall i | 0 <= i < |h| :: h'[i].first == h[i].first && h'[i].second == h[i].second
    ensures Represents(h', t)
  {
    match t
    case Empty =>
    case Node(f, i, s) =>
      LinksFrame(h, h', f);
      LinksFrame(h, h', s);
  }

  // ---------------------------------------------------------------------
  // Paths

  lemma {:induction false} PathIdsSnoc(path: seq<Frame<nat>>, fr: Frame<nat>)
    ensures PathIds(path + [fr]) == PathIds(path) + FrameIds(fr)
  {
    assert (path + [fr])[..|path|] == path;
  }

  lemma {:induction false} AbsPathSnoc(h: Heap, path: seq<Frame<nat>>, fr: Frame<nat>)
    ensures AbsPath(h, path + [fr]) == AbsPath(h, path) + [AbsFrame(h, fr)]
  {
    assert (path + [fr])[..|path|] == path;
  }

  lemma {:induction false} IdsPlug(path: seq<Frame<nat>>, t: Tree<nat>)
    ensures Ids(Plug(path, t)) == PathIds(path) + Ids(t)
    decreases |path|
  {
    if path != [] {
      IdsPlug(path[..|path| - 1], Attach(path[|path| - 1], t));
    }
  }

  /** A shape plugged into a path: the subtree is represented too, and no
      node of the path is in it. */
  lemma {:induction false} PlugParts(h: Heap, path: seq<Frame<nat>>, t: Tree<nat>)
    requires Represents(h, Plug(path, t))
    ensures Represents(h, t)
    ensures PathIds(path) !! Ids(t)
    decreases |path|
  {
    if path != [] {
      var init, fr := path[..|path| - 1], path[|path| - 1];
      PlugParts(h, init, Attach(fr, t));
    }
  }

  lemma {:induction false} AbsPlug(h: Heap, path: seq<Frame<nat>>, t: Tree<nat>)
    ensures Abs(h, Plug(path, t)) == Plug(AbsPath(h, path), Abs(h, t))
    decreases |path|
  {
    if path != [] {
      var init, fr := path[..|path| - 1], path[|path| - 1];
      AbsPlug(h, init, Attach(fr, t));
      assert Abs(h, Attach(fr, t)) == Attach(AbsFrame(h, fr), Abs(h, t));
    }
  }

  lemma {:induction false} AbsPathFrame(h: Heap, h': Heap, path: seq<Frame<nat>>)
    requires Agree(h, h', PathIds(path))
    ensures AbsPath(h', path) == AbsPath(h, path)
    decreases |path|
  {
    if path != [] {
      var init, fr := path[..|path| - 1], path[|path| - 1];
      AbsPathFrame(h, h', init);
      match fr
      case WentFirst(i, s) => FrameAbs(h, h', s);
      case WentSecond(f, i) => FrameAbs(h, h', f);
    }
  }

  /** The root of a shape plugged into a non-empty path is the node of the
      path's first frame. */
  lemma {:induction false} RootOfPlug(path: seq<Frame<nat>>, t: Tree<nat>)
    requires path != []
    ensures Root(Plug(path, t)) == Ref(path[0].val)
    decreases |path|
  {
    PlugCons(path[0], path[1..], t);
    assert path == [path[0]] + path[1..];
  }

  // ---------------------------------------------------------------------
  // Replacing a subtree

  /** Replacing a subtree by one with the same root node keeps the whole
      shape represented, in a heap that agrees on the nodes of the path. */
  lemma {:induction false} ReplaceSameRoot(h: Heap, h': Heap, path: seq<Frame<nat>>, t: Tree<nat>, t': Tree<nat>)
    requires Represents(h, Plug(path, t))
    requires Represents(h', t') && Root(t') == Root(t)
    requires Ids(t') !! PathIds(path)
    requires Agree(h, h', PathIds(path))
    ensures Represents(h', Plug(path, t'))
    decreases |path|
  {
    if path != [] {
      var init, fr := path[..|path| - 1], path[|path| - 1];
      var a, a' := Attach(fr, t), Attach(fr, t');
      PlugParts(h, init, a);
      if fr.WentFirst? {
        FrameRepresents(h, h', fr.second);
      } else {
        FrameRepresents(h, h', fr.first);
      }
      assert Represents(h', a');
      ReplaceSameRoot(h, h', init, a, a');
    }
  }

  /** Replacing the subtree under the last node of a path by another one,
      and pointing that node's link at the new subtree's root, keeps the
      whole shape represented; the path's contents stay the same. */
  lemma {:induction false} Replace(h: Heap, h': Heap, path: seq<Frame<nat>>, t: Tree<nat>, t': Tree<nat>)
    requires path != []
    requires Represents(h, Plug(path, t))
    requires Represents(h', t') && Ids(t') !! PathIds(path)
    requires path[|path| - 1].val < |h| && path[|path| - 1].val < |h'|
    requires h'[path[|path| - 1].val] == Retarget(h[path[|path| - 1].val], path[|path| - 1], Root(t'))
    requires Agree(h, h', PathIds(path) - {path[|path| - 1].val})
    ensures Represents(h', Plug(path, t'))
    ensures AbsPath(h', path) == AbsPath(h, path)
  {
    var init, fr := path[..|path| - 1], path[|path| - 1];
    var p := fr.val;
    var a, a' := Attach(fr, t), Attach(fr, t');
    PlugParts(h, init, a);
    PathIdsSnoc(init, fr);
    assert path == init + [fr];
    assert p !in PathIds(init);
    if fr.WentFirst? {
      FrameRepresents(h, h', fr.second);
    } else {
      FrameRepresents(h, h', fr.first);
    }
    assert Represents(h', a');
    assert Agree(h, h', PathIds(init));
    ReplaceSameRoot(h, h', init, a, a');
    AbsPathFrame(h, h', init);
    AbsPathSnoc(h, init, fr);
    AbsPathSnoc(h', init, fr);
  }

  // ---------------------------------------------------------------------
  // Removal

  /** Changing only links leaves the contents of every shape unchanged. */
  lemma {:induction false} SameValsAbs(h: Heap, h': Heap, t: Tree<nat>)
    requires |h'| == |h| && forall k | 0 <= k < |h| :: h'[k].userdata == h[k].userdata
    ensures Abs(h', t) == Abs(h, t)
  {
    match t
    case Empty =>
    case Node(f, i, s) =>
      SameValsAbs(h, h', f);
      SameValsAbs(h, h', s);
  }

  /** Contents commute with taking the last node of a shape. */
  lemma {:induction false} AbsDropLast(h: Heap, t: Tree<nat>)
    requires t != Empty
    ensures Abs(h, t) != Empty
    ensures Abs(h, DropLast(t)) == DropLast(Abs(h, t))
    ensures Val(h, Last(t)) == Last(Abs(h, t))
  {
    if t.second != Empty {
      AbsDropLast(h, t.second);
    }
  }

  /** The update of the parent's slot in `Remove`: the root pointer is
      handled by the caller when there is no parent; otherwise the parent's
      child link that points at `current` now points at `link`. */
  function RedirectParent(h: Heap, previous: Link, current: Link, link: Link): (h': Heap)
    requires previous.Ref? ==> previous.index < |h|
    ensures |h'| == |h|
    ensures forall k | 0 <= k < |h| && (previous.Ref? ==> k != previous.index) :: h'[k] == h[k]
  {
    if previous == Nil then h
    else if h[previous.index].first == current then h[previous.index := h[previous.index].(first := link)]
    else h[previous.index := h[previous.index].(second := link)]
  }

  /** The parent recorded by the descent is the node of the path's last
      frame, and it is `first` exactly when the descent went through its
      `first` link. */
  lemma {:induction false} RedirectIsRetarget(h: Heap, path: seq<Frame<nat>>, sub: Tree<nat>, link: Link)
    requires Represents(h, Plug(path, sub)) && sub != Empty && path != []
    ensures path[|path| - 1].val < |h|
    ensures path[|path| - 1].val !in Ids(sub)
    ensures RedirectParent(h, Ref(path[|path| - 1].val), Root(sub), link) ==
      h[path[|path| - 1].val := Retarget(h[path[|path| - 1].val], path[|path| - 1], link)]
  {
    var init, fr := path[..|path| - 1], path[|path| - 1];
    var a := Attach(fr, sub);
    assert Plug(path, sub) == Plug(init, a);
    PlugParts(h, init, a);
    ParentLink(h, fr, sub);
  }

  lemma {:induction false} ParentLink(h: Heap, fr: Frame<nat>, sub: Tree<nat>)
    requires Represents(h, Attach(fr, sub)) && sub != Empty
    ensures fr.val < |h| && fr.val !in Ids(sub)
    ensures (h[fr.val].first == Root(sub)) == fr.WentFirst?
  {
    if fr.WentSecond? {
      assert sub.val !in Ids(fr.first);
      assert Root(fr.first) != Ref(sub.val) by {
        if fr.first != Empty {
          assert fr.first.val in Ids(fr.first);
        }
      }
    }
  }

  /** The repaired relinking of a two-child removal. `rep` is the node
      reached by one `first` step from `cur` and then `second` steps to the
      end, and `prevRep` the node before it on those `second` steps (NULL
      when no `second` step was taken). When there is such a node, it
      takes over `rep`'s `first` subtree and `rep` takes over `cur`'s two
      children; otherwise `rep` keeps its `first` subtree and takes over
      only `cur`'s `second` child. */
  function Relink(h: Heap, cur: nat, rep: nat, prevRep: Link): (h': Heap)
    requires cur < |h| && rep < |h| && (prevRep.Ref? ==> prevRep.index < |h|)
    ensures |h'| == |h|
  {
    if prevRep == Nil then h[rep := h[rep].(second := h[cur].second)]
    else
      var pr := prevRep.index;
      var h1 := h[pr := h[pr].(second := h[rep].first)];
      var h2 := h1[rep := h1[rep].(first := h1[cur].first)];
      h2[rep := h2[rep].(second := h2[cur].second)]
  }

  /** `Relink` writes only the promoted node and the node before it, and
      only their links. */
  lemma {:induction false} RelinkFrame(h: Heap, cur: nat, rep: nat, prevRep: Link)
    requires cur < |h| && rep < |h| && (prevRep.Ref? ==> prevRep.index < |h|)
    ensures forall k | 0 <= k < |h| && k != rep && (prevRep.Ref? ==> k != prevRep.index) ::
      Relink(h, cur, rep, prevRep)[k] == h[k]
    ensures forall k | 0 <= k < |h| :: Relink(h, cur, rep, prevRep)[k].userdata == h[k].userdata
  {
  }

  /** Promoting the immediate `first` child, which has no `second` child. */
  lemma {:induction false} PromoteChild(h: Heap, g: Tree<nat>, r: nat, i: nat, s: Tree<nat>)
    requires Represents(h, Node(Node(g, r, Empty), i, s)) && r < |h|
    ensures Represents(Relink(h, i, r, Nil), Node(g, r, s))
  {
    var h' := Relink(h, i, r, Nil);
    RelinkFrame(h, i, r, Nil);
    RepresentsBounds(h, g);
    RepresentsBounds(h, s);
    FrameRepresents(h, h', g);
    FrameRepresents(h, h', s);
  }

  /** Unlinking the last node `r` of a chain of `second` steps: its
      predecessor's `second` link takes over `r`'s `first` subtree. */
  lemma {:induction false} CutLast(h: Heap, path2: seq<Frame<nat>>, g: Tree<nat>, r: nat)
    requires Represents(h, Plug(path2, Node(g, r, Empty)))
    requires path2 != [] && path2[|path2| - 1].WentSecond?
    requires r < |h| && path2[|path2| - 1].val < |h|
    ensures Represents(h[path2[|path2| - 1].val := h[path2[|path2| - 1].val].(second := h[r].first)], Plug(path2, g))
  {
    var pr := path2[|path2| - 1].val;
    var sub2 := Node(g, r, Empty);
    PlugParts(h, path2, sub2);
    IdsPlug(path2, sub2);
    RepresentsBounds(h, Plug(path2, sub2));
    var h1 := h[pr := h[pr].(second := h[r].first)];
    assert Agree(h, h1, PathIds(path2) - {pr});
    FrameRepresents(h, h1, g);
    Replace(h, h1, path2, sub2, g);
  }

  /** The nodes around a promotion from the end of a chain of `second`
      steps: the node before `r` lies in the `first` subtree, and `r`
      leaves that subtree. */
  lemma {:induction false} DeepIds(h: Heap, f: Tree<nat>, i: nat, s: Tree<nat>,
                                   path2: seq<Frame<nat>>, g: Tree<nat>, r: nat)
    requires Represents(h, Node(f, i, s))
    requires f == Plug(path2, Node(g, r, Empty)) && path2 != [] && path2[|path2| - 1].WentSecond?
    ensures path2[|path2| - 1].val in Ids(f) - {r, i}
    ensures Ids(Plug(path2, g)) == Ids(f) - {r}
    ensures r in Ids(f) && r !in Ids(s)
    ensures Represents(h, Plug(path2, Node(g, r, Empty))) && Represents(h, s)
    ensures Root(Plug(path2, g)) == Root(f)
  {
    var sub2 := Node(g, r, Empty);
    PlugParts(h, path2, sub2);
    IdsPlug(path2, sub2);
    IdsPlug(path2, g);
    PathIdsSnoc(path2[..|path2| - 1], path2[|path2| - 1]);
    assert path2 == path2[..|path2| - 1] + [path2[|path2| - 1]];
    RootOfPlug(path2, g);
    RootOfPlug(path2, sub2);
  }

  /** Promoting a node reached by at least one `second` step. */
  lemma {:induction false} PromoteDeep(h: Heap, f: Tree<nat>, i: nat, s: Tree<nat>,
                                       path2: seq<Frame<nat>>, g: Tree<nat>, r: nat)
    requires Represents(h, Node(f, i, s))
    requires f == Plug(path2, Node(g, r, Empty)) && path2 != [] && path2[|path2| - 1].WentSecond?
    requires r < |h| && path2[|path2| - 1].val < |h|
    ensures Represents(Relink(h, i, r, Ref(path2[|path2| - 1].val)), Node(Plug(path2, g), r, s))
  {
    var pr := path2[|path2| - 1].val;
    DeepIds(h, f, i, s, path2, g, r);
    var g' := Plug(path2, g);
    var h1 := h[pr := h[pr].(second := h[r].first)];
    CutLast(h, path2, g, r);
    var h' := h1[r := NodeRecord(h[r].userdata, h[i].first, h[i].second)];
    assert h' == Relink(h, i, r, Ref(pr));
    RepresentsBounds(h1, g');
    assert Agree(h1, h', Ids(g'));
    FrameRepresents(h1, h', g');
    RepresentsBounds(h, s);
    assert Agree(h, h', Ids(s));
    FrameRepresents(h, h', s);
  }

  /** Promoting the last node of the `first` subtree: afterwards that node
      roots a shape holding the `first` subtree without it and the `second`
      subtree. Only nodes of the `first` subtree change, and only in their
      links. */
  lemma {:induction false} PromoteLast(h: Heap, f: Tree<nat>, i: nat, s: Tree<nat>,
                                       path2: seq<Frame<nat>>, g: Tree<nat>, r: nat, prevRep: Link)
    requires Represents(h, Node(f, i, s))
    requires f == Plug(path2, Node(g, r, Empty)) && AllSecond(path2)
    requires prevRep == if path2 == [] then Nil else Ref(path2[|path2| - 1].val)
    requires r < |h| && (prevRep.Ref? ==> prevRep.index < |h|)
    ensures Represents(Relink(h, i, r, prevRep), Node(Plug(path2, g), r, s))
    ensures Ids(Plug(path2, g)) + {r} == Ids(f)
    ensures forall k | 0 <= k < |h| && k !in Ids(f) :: Relink(h, i, r, prevRep)[k] == h[k]
    ensures forall k | 0 <= k < |h| :: Relink(h, i, r, prevRep)[k].userdata == h[k].userdata
  {
    IdsPlug(path2, Node(g, r, Empty));
    IdsPlug(path2, g);
    PlugParts(h, path2, Node(g, r, Empty));
    RelinkFrame(h, i, r, prevRep);
    if path2 == [] {
      PromoteChild(h, g, r, i, s);
    } else {
      PathIdsSnoc(path2[..|path2| - 1], path2[|path2| - 1]);
      assert path2 == path2[..|path2| - 1] + [path2[|path2| - 1]];
      PromoteDeep(h, f, i, s, path2, g, r);
    }
  }
}
