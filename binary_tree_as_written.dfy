/** Three parts of `src/lib/GenUtils/BinaryTree.c` exactly as they are
    written, next to the lemmas that show how they depart from what the
    surrounding code and the header promise. The rest of the model uses
    the repaired versions in `GenUtilsBinaryTree`. */
module BinaryTreeAsWritten {
  import opened CTypes
  import opened Trees
  import opened BinaryTreeSpec
  import opened BinaryTreeHeap

  // ---------------------------------------------------------------------
  // Insert

  /** A tree whose node records may be missing: `None` is a node whose
      `userdata` pointer was never set. */
  function Lift(t: Tree<KeyValue>): (r: Tree<Option<KeyValue>>)
    ensures Count(r) == Count(t)
  {
    match t
    case Empty => Empty
    case Node(f, x, s) => Node(Lift(f), Some(x), Lift(s))
  }

  /** The missing records filled in with `kv`. */
  function Fill(t: Tree<Option<KeyValue>>, kv: KeyValue): Tree<KeyValue> {
    match t
    case Empty => Empty
    case Node(f, x, s) => Node(Fill(f, kv), if x.Some? then x.value else kv, Fill(s, kv))
  }

  lemma {:induction false} FillLift(t: Tree<KeyValue>, kv: KeyValue)
    ensures Fill(Lift(t), kv) == t
  {
    if t != Empty {
      FillLift(t.first, kv);
      FillLift(t.second, kv);
    }
  }

  /** `GenUtils_BinaryTreeInsert` as written: the loop is skipped for an
      empty tree, which is refused; a new leaf gets its links but no
      record. */
  function InsertAsWritten(t: Tree<KeyValue>, kv: KeyValue): (bool, Tree<Option<KeyValue>>) {
    match t
    case Empty => (false, Empty)
    case Node(f, x, s) =>
      var c := Strcmp(x.key, kv.key);
      if c == 0 then (false, Lift(t))
      else if c < 0 then
        (if f == Empty then (true, Node(Node(Empty, None, Empty), Some(x), Lift(s)))
         else var (ok, f') := InsertAsWritten(f, kv); (ok, Node(f', Some(x), Lift(s))))
      else
        (if s == Empty then (true, Node(Lift(f), Some(x), Node(Empty, None, Empty)))
         else var (ok, s') := InsertAsWritten(s, kv); (ok, Node(Lift(f), Some(x), s')))
  }

  /** As written, `Insert` succeeds exactly when the tree is not empty and
      its descent misses the key; when it fails the tree is unchanged. */
  lemma {:induction false} InsertAsWrittenSucceeds(t: Tree<KeyValue>, kv: KeyValue)
    ensures InsertAsWritten(t, kv).0 <==> t != Empty && FindIns(t, kv.key).None?
    ensures !InsertAsWritten(t, kv).0 ==> InsertAsWritten(t, kv).1 == Lift(t)
  {
    match t
    case Empty =>
    case Node(f, x, s) =>
      var c := Strcmp(x.key, kv.key);
      if c < 0 && f != Empty {
        InsertAsWrittenSucceeds(f, kv);
      } else if c > 0 && s != Empty {
        InsertAsWrittenSucceeds(s, kv);
      }
  }

  /** A successful insertion as written adds one node in the place the
      repaired insertion would ... */
  lemma {:induction false} InsertAsWrittenShape(t: Tree<KeyValue>, kv: KeyValue)
    requires InsertAsWritten(t, kv).0
    ensures Fill(InsertAsWritten(t, kv).1, kv) == InsertIns(t, kv)
  {
    match t
    case Node(f, x, s) =>
      var c := Strcmp(x.key, kv.key);
      FillLift(f, kv);
      FillLift(s, kv);
      if c < 0 && f != Empty {
        InsertAsWrittenShape(f, kv);
      } else if c > 0 && s != Empty {
        InsertAsWrittenShape(s, kv);
      }
  }

  /** ... but that node holds no record: the tree gains a missing record
      and not `kv`. */
  lemma {:induction false} InsertAsWrittenLeavesLeafBlank(t: Tree<KeyValue>, kv: KeyValue)
    requires InsertAsWritten(t, kv).0
    ensures Bag(InsertAsWritten(t, kv).1) == Bag(Lift(t)) + multiset{None}
  {
    var t' := InsertAsWritten(t, kv).1;
    var f, x, s := t.first, t.val, t.second;
    var c := Strcmp(x.key, kv.key);
    assert Bag(Lift(t)) == Bag(Lift(f)) + multiset{Some(x)} + Bag(Lift(s));
    if c < 0 {
      if f != Empty {
        InsertAsWrittenLeavesLeafBlank(f, kv);
      }
      assert t' == Node(t'.first, Some(x), Lift(s));
      AddOne(Bag(t'.first), Bag(Lift(f)), multiset{Some(x)}, Bag(Lift(s)));
    } else {
      if s != Empty {
        InsertAsWrittenLeavesLeafBlank(s, kv);
      }
      assert t' == Node(Lift(f), Some(x), t'.second);
      AddOneRight(Bag(Lift(f)), multiset{Some(x)}, Bag(t'.second), Bag(Lift(s)));
    }
  }

  lemma {:induction false} AddOne(a': multiset<Option<KeyValue>>, a: multiset<Option<KeyValue>>,
               b: multiset<Option<KeyValue>>, c: multiset<Option<KeyValue>>)
    requires a' == a + multiset{None}
    ensures a' + b + c == a + b + c + multiset{None}
  {
  }

  lemma {:induction false} AddOneRight(a: multiset<Option<KeyValue>>, b: multiset<Option<KeyValue>>,
                    c': multiset<Option<KeyValue>>, c: multiset<Option<KeyValue>>)
    requires c' == c + multiset{None}
    ensures a + b + c' == a + b + c + multiset{None}
  {
  }

  /** No tree ever becomes non-empty: inserting into an empty tree is
      refused, whatever the record. */
  lemma {:induction false} InsertIntoEmptyTreeRefused(kv: KeyValue)
    ensures InsertAsWritten(Empty, kv) == (false, Empty)
    ensures InsertIns(Empty, kv) == Node(Empty, kv, Empty)
  {
  }

  // ---------------------------------------------------------------------
  // Two-child removal

  /** The relinking of lines 404-411 as written: with no node before the
      promoted one, `previousReplaceNode` becomes the removed node's
      `first` child, which is the promoted node itself. */
  function RelinkAsWritten(h: Heap, cur: nat, rep: nat, prevRep: Link): (h': Heap)
    requires cur < |h| && rep < |h| && (prevRep.Ref? ==> prevRep.index < |h|)
    requires prevRep == Nil ==> h[cur].first.Ref? && h[cur].first.index < |h|
    ensures |h'| == |h|
  {
    var pr := if prevRep.Ref? then prevRep.index else h[cur].first.index;
    var h1 := h[pr := h[pr].(second := h[rep].first)];
    var h2 := h1[rep := h1[rep].(first := h1[cur].first)];
    h2[rep := h2[rep].(second := h2[cur].second)]
  }

  /** When at least one `second` step was taken, the code as written is
      the relinking the model proves correct. */
  lemma {:induction false} RelinkAsWrittenAfterSecondSteps(h: Heap, cur: nat, rep: nat, prevRep: Link)
    requires cur < |h| && rep < |h| && prevRep.Ref? && prevRep.index < |h|
    ensures RelinkAsWritten(h, cur, rep, prevRep) == Relink(h, cur, rep, prevRep)
  {
  }

  /** No node of a represented tree is its own `first` child. */
  lemma {:induction false} NoSelfLoop(h: Heap, t: Tree<nat>, k: nat)
    requires Represents(h, t) && k in Ids(t)
    ensures k < |h| && h[k].first != Ref(k)
  {
    match t
    case Node(f, i, s) =>
      if k == i {
        if f != Empty {
          assert f.val in Ids(f);
        }
      } else if k in Ids(f) {
        NoSelfLoop(h, f, k);
      } else {
        NoSelfLoop(h, s, k);
      }
  }

  /** When the promoted node `r` is the removed node's immediate `first`
      child, the code as written makes `r` its own `first` child and drops
      `r`'s old `first` subtree `g`: no tree is represented through `r`
      any more, and neither link of `r` leads to `g`. */
  lemma {:induction false} ImmediatePredecessorSelfLoop(h: Heap, g: Tree<nat>, r: nat, i: nat, s: Tree<nat>)
    requires Represents(h, Node(Node(g, r, Empty), i, s))
    ensures r < |h| && i < |h|
    ensures RelinkAsWritten(h, i, r, Nil)[r].first == Ref(r)
    ensures forall t: Tree<nat> :: Represents(RelinkAsWritten(h, i, r, Nil), t) ==> r !in Ids(t)
    ensures g != Empty ==> RelinkAsWritten(h, i, r, Nil)[r].first != Root(g) &&
                           RelinkAsWritten(h, i, r, Nil)[r].second != Root(g)
  {
    var h' := RelinkAsWritten(h, i, r, Nil);
    assert h'[r].first == Ref(r);
    assert h'[r].second == h[i].second == Root(s);
    forall t: Tree<nat> | Represents(h', t)
      ensures r !in Ids(t)
    {
      if r in Ids(t) {
        NoSelfLoop(h', t, r);
      }
    }
    if g != Empty {
      assert g.val in Ids(g);
      if s != Empty {
        assert s.val in Ids(s);
      }
    }
  }

  /** Removing key "b" from the tree with root "b" and leaves "a" and "c":
      node 1 ("a") is promoted and ends up linked to itself. */
  function ThreeNodes(): Heap {
    [NodeRecord(KeyValue([98], Null), Ref(1), Ref(2)),
     NodeRecord(KeyValue([97], Null), Nil, Nil),
     NodeRecord(KeyValue([99], Null), Nil, Nil)]
  }

  lemma {:induction false} ThreeNodesSelfLoop()
    ensures Represents(ThreeNodes(), Node(Node(Empty, 1, Empty), 0, Node(Empty, 2, Empty)))
    ensures RelinkAsWritten(ThreeNodes(), 0, 1, Nil)[1].first == Ref(1)
    ensures Represents(Relink(ThreeNodes(), 0, 1, Nil), Node(Empty, 1, Node(Empty, 2, Empty)))
  {
    PromoteChild(ThreeNodes(), Empty, 1, 0, Node(Empty, 2, Empty));
  }

  // ---------------------------------------------------------------------
  // Traversal helpers

  /** A `void *` or function pointer argument of a traversal helper. */
  datatype Word = NullWord | Code(fn: nat) | Data(ptr: nat)

  /** One call `callee(record, arg)` made by a traversal. */
  datatype Call = Call(callee: Word, record: KeyValue, arg: Word)

  /** The calls the header promises: `visitor(record, extradata)` for each
      record of `s`, in order; none for a NULL visitor. */
  function Calls(visitor: Word, s: seq<KeyValue>, extradata: Word): (r: seq<Call>)
    ensures visitor != NullWord ==> |r| == |s|
    ensures visitor != NullWord ==> forall k | 0 <= k < |r| :: r[k] == Call(visitor, s[k], extradata)
    ensures visitor == NullWord ==> r == []
  {
    if visitor == NullWord || s == [] then [] else [Call(visitor, s[0], extradata)] + Calls(visitor, s[1..], extradata)
  }

  /** `GenUtils_BinaryTreeInternalPreorder` as written: the recursive calls
      pass `visitor` as the extradata and `extradata` as the visitor. */
  function PreorderAsWritten(t: Tree<KeyValue>, extradata: Word, visitor: Word): seq<Call> {
    if t == Empty || visitor == NullWord then []
    else
      [Call(visitor, t.val, extradata)] + PreorderAsWritten(t.first, visitor, extradata)
      + PreorderAsWritten(t.second, visitor, extradata)
  }

  /** `GenUtils_BinaryTreeInternalInorder` as written: both subtrees go
      through the pre-order helper, with the arguments swapped. */
  function InorderAsWritten(t: Tree<KeyValue>, extradata: Word, visitor: Word): seq<Call> {
    if t == Empty || visitor == NullWord then []
    else
      PreorderAsWritten(t.first, visitor, extradata) + [Call(visitor, t.val, extradata)]
      + PreorderAsWritten(t.second, visitor, extradata)
  }

  /** `GenUtils_BinaryTreeInternalPostorder` as written. */
  function PostorderAsWritten(t: Tree<KeyValue>, extradata: Word, visitor: Word): seq<Call> {
    if t == Empty || visitor == NullWord then []
    else
      PreorderAsWritten(t.first, visitor, extradata) + PreorderAsWritten(t.second, visitor, extradata)
      + [Call(visitor, t.val, extradata)]
  }

  /** With a NULL extradata, the helpers as written call the visitor on the
      root record only. */
  lemma {:induction false} NullExtradataVisitsOnlyRoot(t: Tree<KeyValue>, visitor: Word)
    requires t != Empty && visitor != NullWord
    ensures PreorderAsWritten(t, NullWord, visitor) == [Call(visitor, t.val, NullWord)]
    ensures InorderAsWritten(t, NullWord, visitor) == [Call(visitor, t.val, NullWord)]
    ensures PostorderAsWritten(t, NullWord, visitor) == [Call(visitor, t.val, NullWord)]
  {
  }

  /** With a non-NULL extradata, the helpers as written call the extradata
      pointer as a function on the root's `first` child. */
  lemma {:induction false} ExtradataCalledAsFunction(t: Tree<KeyValue>, extradata: Word, visitor: Word)
    requires t != Empty && t.first != Empty && extradata != NullWord && visitor != NullWord
    ensures Call(extradata, t.first.val, visitor) in PreorderAsWritten(t, extradata, visitor)
    ensures Call(extradata, t.first.val, visitor) in InorderAsWritten(t, extradata, visitor)
    ensures Call(extradata, t.first.val, visitor) in PostorderAsWritten(t, extradata, visitor)
  {
    var c := Call(extradata, t.first.val, visitor);
    assert PreorderAsWritten(t.first, visitor, extradata)[0] == c;
  }

  /** For every tree of more than one node and a visitor that is a
      function, whatever the extradata (NULL or a data pointer), each
      helper as written makes calls other than the ones its name
      promises. */
  lemma {:induction false} TraversalHelpersDiverge(t: Tree<KeyValue>, extradata: Word, visitor: Word)
    requires t != Empty && (t.first != Empty || t.second != Empty)
    requires visitor.Code? && !extradata.Code?
    ensures PreorderAsWritten(t, extradata, visitor) != Calls(visitor, PreOrder(t), extradata)
    ensures InorderAsWritten(t, extradata, visitor) != Calls(visitor, InOrder(t), extradata)
    ensures PostorderAsWritten(t, extradata, visitor) != Calls(visitor, PostOrder(t), extradata)
  {
    PreOrderVisitsEveryNodeOnce(t);
    InOrderVisitsEveryNodeOnce(t);
    PostOrderVisitsEveryNodeOnce(t);
    if extradata == NullWord {
      NullExtradataVisitsOnlyRoot(t, visitor);
      assert Count(t) > 1;
    } else {
      var child := if t.first != Empty then t.first else t.second;
      var c := Call(extradata, child.val, visitor);
      assert PreorderAsWritten(child, visitor, extradata)[0] == c;
      assert c in PreorderAsWritten(t, extradata, visitor);
      assert c in InorderAsWritten(t, extradata, visitor);
      assert c in PostorderAsWritten(t, extradata, visitor);
      CalleesOf(visitor, PreOrder(t), extradata, c);
      CalleesOf(visitor, InOrder(t), extradata, c);
      CalleesOf(visitor, PostOrder(t), extradata, c);
    }
  }

  lemma {:induction false} CalleesOf(visitor: Word, s: seq<KeyValue>, extradata: Word, c: Call)
    requires visitor != NullWord && c.callee != visitor
    ensures c !in Calls(visitor, s, extradata)
  {
  }
}
