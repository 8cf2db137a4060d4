/** What the operations of the string-keyed binary search tree do to the
    tree's contents, as functions on `Tree<KeyValue>`, and what they
    guarantee.

    The tree's functions descend in two opposite ways. `Exist`, `Get` and
    `Insert` compute `strcmp(node key, target)` and go to `first` when it is
    negative, that is when the node's key is SMALLER than the target; `Set`
    and `Remove` compute `strcmp(target, node key)` and go to `first` when
    the TARGET is smaller. Each convention has its own descent function
    (`FindIns`, `FindStd`) and its own ordering predicate (`OrderedIns`,
    `OrderedStd`); each operation is stated against its own convention. */
module BinaryTreeSpec {
  import opened CTypes
  import opened Trees

  /** The key/value record a node owns. */
  datatype KeyValue = KeyValue(key: Key, value: Ptr)

  function Keys(t: Tree<KeyValue>): set<Key> {
    match t
    case Empty => {}
    case Node(f, x, s) => Keys(f) + {x.key} + Keys(s)
  }

  /** The keys of a tree, laid out in its shape. */
  function KeyTree(t: Tree<KeyValue>): Tree<Key> {
    match t
    case Empty => Empty
    case Node(f, x, s) => Node(KeyTree(f), x.key, KeyTree(s))
  }

  /** Ordering kept by `Insert`: every key under `first` is greater than the
      node's key, every key under `second` smaller. */
  predicate OrderedIns(t: Tree<KeyValue>) {
    match t
    case Empty => true
    case Node(f, x, s) =>
      (forall k | k in Keys(f) :: Less(x.key, k)) &&
      (forall k | k in Keys(s) :: Less(k, x.key)) &&
      OrderedIns(f) && OrderedIns(s)
  }

  /** Ordering assumed by `Set` and `Remove`: every key under `first` is
      smaller than the node's key, every key under `second` greater. */
  predicate OrderedStd(t: Tree<KeyValue>) {
    match t
    case Empty => true
    case Node(f, x, s) =>
      (forall k | k in Keys(f) :: Less(k, x.key)) &&
      (forall k | k in Keys(s) :: Less(x.key, k)) &&
      OrderedStd(f) && OrderedStd(s)
  }

  /** The record that the descent of `Exist`, `Get` and `Insert` stops at:
      `strcmp(node key, key) < 0` goes to `first`, `> 0` to `second`. */
  function FindIns(t: Tree<KeyValue>, key: Key): Option<KeyValue> {
    match t
    case Empty => None
    case Node(f, x, s) =>
      var c := Strcmp(x.key, key);
      if c < 0 then FindIns(f, key) else if c > 0 then FindIns(s, key) else Some(x)
  }

  /** The record that the descent of `Set` and `Remove` stops at:
      `strcmp(key, node key) < 0` goes to `first`, `> 0` to `second`. */
  function FindStd(t: Tree<KeyValue>, key: Key): Option<KeyValue> {
    match t
    case Empty => None
    case Node(f, x, s) =>
      var c := Strcmp(key, x.key);
      if c < 0 then FindStd(f, key) else if c > 0 then FindStd(s, key) else Some(x)
  }

  /** `Insert`'s effect: a new leaf holding `kv` in the empty slot where the
      descent of `FindIns` stops; no change when that descent finds the
      key. */
  function InsertIns(t: Tree<KeyValue>, kv: KeyValue): Tree<KeyValue> {
    match t
    case Empty => Node(Empty, kv, Empty)
    case Node(f, x, s) =>
      var c := Strcmp(x.key, kv.key);
      if c == 0 then t
      else if c < 0 then Node(InsertIns(f, kv), x, s)
      else Node(f, x, InsertIns(s, kv))
  }

  /** `Set`'s effect: the record found by `FindStd` gets `kv`'s value and
      keeps its key. */
  function SetStd(t: Tree<KeyValue>, kv: KeyValue): Tree<KeyValue> {
    match t
    case Empty => Empty
    case Node(f, x, s) =>
      var c := Strcmp(kv.key, x.key);
      if c < 0 then Node(SetStd(f, kv), x, s)
      else if c > 0 then Node(f, x, SetStd(s, kv))
      else Node(f, x.(value := kv.value), s)
  }

  /** `Remove`'s effect on the node `FindStd` stops at: a node with at most
      one child is replaced by that child (or nothing); a node with two
      children is replaced by the last node of its `first` subtree (one
      `first` step, then `second` steps to the end), which leaves its own
      `first` subtree in its former place. */
  function RemoveStd(t: Tree<KeyValue>, key: Key): Tree<KeyValue> {
    match t
    case Empty => Empty
    case Node(f, x, s) =>
      var c := Strcmp(key, x.key);
      if c < 0 then Node(RemoveStd(f, key), x, s)
      else if c > 0 then Node(f, x, RemoveStd(s, key))
      else if f == Empty || s == Empty then (if f != Empty then f else s)
      else Node(DropLast(f), Last(f), s)
  }

  /** `FromArray`'s effect: insert the records front to back into `t`;
      `None` as soon as one insertion fails (a key the descent finds). */
  function InsertAll(t: Tree<KeyValue>, s: seq<KeyValue>): Option<Tree<KeyValue>>
    decreases |s|
  {
    if s == [] then Some(t)
    else if FindIns(t, s[0].key).Some? then None
    else InsertAll(InsertIns(t, s[0]), s[1..])
  }

  /** A tree in which every node has only a `second` child: a list. */
  function Chain(s: seq<KeyValue>): Tree<KeyValue> {
    if s == [] then Empty else Node(Empty, s[0], Chain(s[1..]))
  }

  function Height<T>(t: Tree<T>): nat {
    match t
    case Empty => 0
    case Node(f, _, s) => 1 + (if Height(f) < Height(s) then Height(s) else Height(f))
  }

  predicate DistinctKeys(s: seq<KeyValue>) {
    forall i, j | 0 <= i < j < |s| :: s[i].key != s[j].key
  }

  /** Keys strictly decreasing from front to back. */
  predicate Descending(s: seq<KeyValue>) {
    forall i, j | 0 <= i < j < |s| :: Less(s[j].key, s[i].key)
  }

  /** Keys strictly increasing from front to back. */
  predicate Ascending(s: seq<KeyValue>) {
    forall i, j | 0 <= i < j < |s| :: Less(s[i].key, s[j].key)
  }

  // ---------------------------------------------------------------------
  // Keys and in-order sequences

  lemma {:induction false} KeysOfInOrder(t: Tree<KeyValue>)
    ensures forall i | 0 <= i < |InOrder(t)| :: InOrder(t)[i].key in Keys(t)
    ensures forall k | k in Keys(t) :: exists i :: 0 <= i < |InOrder(t)| && InOrder(t)[i].key == k
  {
    match t
    case Empty =>
    case Node(f, x, s) =>
      KeysOfInOrder(f);
      KeysOfInOrder(s);
      var a, b := InOrder(f), InOrder(s);
      assert InOrder(t) == a + [x] + b;
      assert Keys(t) == Keys(f) + {x.key} + Keys(s);
      forall k | k in Keys(t) ensures exists i :: 0 <= i < |InOrder(t)| && InOrder(t)[i].key == k {
        if k in Keys(f) {
          var i :| 0 <= i < |a| && a[i].key == k;
          assert InOrder(t)[i] == a[i];
        } else if k == x.key {
          assert InOrder(t)[|a|] == x;
        } else {
          assert k in Keys(s);
          var i :| 0 <= i < |b| && b[i].key == k;
          assert InOrder(t)[|a| + 1 + i] == b[i];
        }
      }
  }

  /** On a tree ordered for `Insert`, the in-order sequence (first, self,
      second) lists the keys in strictly decreasing order. */
  lemma {:induction false} OrderedInsInOrderDescending(t: Tree<KeyValue>)
    requires OrderedIns(t)
    ensures Descending(InOrder(t))
  {
    match t
    case Empty =>
    case Node(f, x, s) =>
      OrderedInsInOrderDescending(f);
      OrderedInsInOrderDescending(s);
      KeysOfInOrder(f);
      KeysOfInOrder(s);
      var a, b := InOrder(f), InOrder(s);
      var w := InOrder(t);
      assert w == a + [x] + b;
      forall i, j | 0 <= i < j < |w| ensures Less(w[j].key, w[i].key) {
        if j < |a| {
          assert w[i] == a[i] && w[j] == a[j];
        } else if i > |a| {
          assert w[i] == b[i - |a| - 1] && w[j] == b[j - |a| - 1];
        } else if i == |a| {
          assert w[j] == b[j - |a| - 1];
        } else if j == |a| {
          assert w[i] == a[i];
        } else {
          assert w[i] == a[i] && w[j] == b[j - |a| - 1];
          StrcmpTransitive(w[j].key, x.key, w[i].key);
        }
      }
  }

  /** On a tree ordered for `Set` and `Remove`, the in-order sequence lists
      the keys in strictly increasing order. */
  lemma {:induction false} OrderedStdInOrderAscending(t: Tree<KeyValue>)
    requires OrderedStd(t)
    ensures Ascending(InOrder(t))
  {
    match t
    case Empty =>
    case Node(f, x, s) =>
      OrderedStdInOrderAscending(f);
      OrderedStdInOrderAscending(s);
      KeysOfInOrder(f);
      KeysOfInOrder(s);
      var a, b := InOrder(f), InOrder(s);
      var w := InOrder(t);
      assert w == a + [x] + b;
      forall i, j | 0 <= i < j < |w| ensures Less(w[i].key, w[j].key) {
        if j < |a| {
          assert w[i] == a[i] && w[j] == a[j];
        } else if i > |a| {
          assert w[i] == b[i - |a| - 1] && w[j] == b[j - |a| - 1];
        } else if i == |a| {
          assert w[j] == b[j - |a| - 1];
        } else if j == |a| {
          assert w[i] == a[i];
        } else {
          assert w[i] == a[i] && w[j] == b[j - |a| - 1];
          StrcmpTransitive(w[i].key, x.key, w[j].key);
        }
      }
  }

  // ---------------------------------------------------------------------
  // Exist and Get

  /** What the descent stops at is a record of the tree with the searched
      key. */
  lemma {:induction false} FindInsFindsStoredRecord(t: Tree<KeyValue>, key: Key)
    ensures FindIns(t, key).Some? ==> FindIns(t, key).value.key == key && FindIns(t, key).value in Bag(t)
  {
    match t
    case Empty =>
    case Node(f, x, s) =>
      FindInsFindsStoredRecord(f, key);
      FindInsFindsStoredRecord(s, key);
  }

  /** On a tree ordered for `Insert` the descent of `Exist`/`Get` finds a
      key exactly when the key is stored. */
  lemma {:induction false} FindInsComplete(t: Tree<KeyValue>, key: Key)
    requires OrderedIns(t)
    ensures FindIns(t, key).Some? <==> key in Keys(t)
  {
    match t
    case Empty =>
    case Node(f, x, s) =>
      FindInsComplete(f, key);
      FindInsComplete(s, key);
      var c := Strcmp(x.key, key);
      StrcmpAntisymmetric(x.key, key);
      if c < 0 {
        assert key !in Keys(s) by { if key in Keys(s) { LessTrichotomy(key, x.key); } }
      } else if c > 0 {
        assert key !in Keys(f) by { if key in Keys(f) { LessTrichotomy(key, x.key); } }
      }
  }

  lemma {:induction false} FindStdFindsStoredRecord(t: Tree<KeyValue>, key: Key)
    ensures FindStd(t, key).Some? ==> FindStd(t, key).value.key == key && FindStd(t, key).value in Bag(t)
  {
    match t
    case Empty =>
    case Node(f, x, s) =>
      FindStdFindsStoredRecord(f, key);
      FindStdFindsStoredRecord(s, key);
  }

  /** On a tree ordered for `Set` and `Remove` their descent finds a key
      exactly when the key is stored. */
  lemma {:induction false} FindStdComplete(t: Tree<KeyValue>, key: Key)
    requires OrderedStd(t)
    ensures FindStd(t, key).Some? <==> key in Keys(t)
  {
    match t
    case Empty =>
    case Node(f, x, s) =>
      FindStdComplete(f, key);
      FindStdComplete(s, key);
      var c := Strcmp(key, x.key);
      StrcmpAntisymmetric(x.key, key);
      if c < 0 {
        assert key !in Keys(s) by { if key in Keys(s) { LessTrichotomy(key, x.key); } }
      } else if c > 0 {
        assert key !in Keys(f) by { if key in Keys(f) { LessTrichotomy(key, x.key); } }
      }
  }

  // ---------------------------------------------------------------------
  // Insert

  /** Sequence algebra for an insertion or deletion inside the left or the
      right part of `a + [x] + b`. */
  lemma {:induction false} InsertLeftPart<T>(a: seq<T>, i: nat, y: T, x: T, b: seq<T>)
    requires i <= |a|
    ensures (a[..i] + [y] + a[i..]) + [x] + b == (a + [x] + b)[..i] + [y] + (a + [x] + b)[i..]
  {
  }

  lemma {:induction false} InsertRightPart<T>(a: seq<T>, x: T, b: seq<T>, i: nat, y: T)
    requires i <= |b|
    ensures a + [x] + (b[..i] + [y] + b[i..]) ==
      (a + [x] + b)[..|a| + 1 + i] + [y] + (a + [x] + b)[|a| + 1 + i..]
  {
  }

  lemma {:induction false} DeleteLeftPart<T>(a: seq<T>, i: nat, x: T, b: seq<T>)
    requires i < |a|
    ensures (a[..i] + a[i + 1..]) + [x] + b == (a + [x] + b)[..i] + (a + [x] + b)[i + 1..]
    ensures (a + [x] + b)[i] == a[i]
  {
  }

  lemma {:induction false} DeleteRightPart<T>(a: seq<T>, x: T, b: seq<T>, i: nat)
    requires i < |b|
    ensures a + [x] + (b[..i] + b[i + 1..]) ==
      (a + [x] + b)[..|a| + 1 + i] + (a + [x] + b)[|a| + 1 + i + 1..]
    ensures (a + [x] + b)[|a| + 1 + i] == b[i]
  {
  }

  lemma {:induction false} DeleteMiddle<T>(a: seq<T>, x: T, b: seq<T>)
    ensures a + b == (a + [x] + b)[..|a|] + (a + [x] + b)[|a| + 1..]
    ensures (a + [x] + b)[|a|] == x
  {
  }

  lemma {:induction false} InsertedElement<T>(w: seq<T>, i: nat, y: T)
    requires i <= |w|
    ensures multiset(w[..i] + [y] + w[i..]) == multiset(w) + multiset{y}
    ensures |w[..i] + [y] + w[i..]| == |w| + 1
  {
    assert w == w[..i] + w[i..];
  }

  /** A key the descent finds is refused and nothing changes. */
  lemma {:induction false} InsertInsRefusesFoundKey(t: Tree<KeyValue>, kv: KeyValue)
    requires FindIns(t, kv.key).Some?
    ensures InsertIns(t, kv) == t
  {
    match t
    case Empty =>
    case Node(f, x, s) =>
      if Strcmp(x.key, kv.key) < 0 {
        InsertInsRefusesFoundKey(f, kv);
      } else if Strcmp(x.key, kv.key) > 0 {
        InsertInsRefusesFoundKey(s, kv);
      }
  }

  /** Otherwise the in-order sequence is the old one with `kv` inserted at
      one position. */
  lemma {:induction false} InsertInsInOrder(t: Tree<KeyValue>, kv: KeyValue)
    requires FindIns(t, kv.key).None?
    ensures exists i :: 0 <= i <= |InOrder(t)| && InOrder(InsertIns(t, kv)) == InOrder(t)[..i] + [kv] + InOrder(t)[i..]
  {
    match t
    case Empty =>
      assert InOrder(InsertIns(t, kv)) == InOrder(t)[..0] + [kv] + InOrder(t)[0..];
    case Node(f, x, s) =>
      var a, b := InOrder(f), InOrder(s);
      assert InOrder(t) == a + [x] + b;
      if Strcmp(x.key, kv.key) < 0 {
        var f' := InsertIns(f, kv);
        assert InsertIns(t, kv) == Node(f', x, s);
        InsertInsInOrder(f, kv);
        var i :| 0 <= i <= |a| && InOrder(f') == a[..i] + [kv] + a[i..];
        InsertLeftPart(a, i, kv, x, b);
        assert InOrder(InsertIns(t, kv)) == InOrder(t)[..i] + [kv] + InOrder(t)[i..];
      } else {
        var s' := InsertIns(s, kv);
        assert InsertIns(t, kv) == Node(f, x, s');
        InsertInsInOrder(s, kv);
        var i :| 0 <= i <= |b| && InOrder(s') == b[..i] + [kv] + b[i..];
        InsertRightPart(a, x, b, i, kv);
        var j := |a| + 1 + i;
        assert InOrder(InsertIns(t, kv)) == InOrder(t)[..j] + [kv] + InOrder(t)[j..];
      }
  }

  /** Otherwise the tree gains exactly the new record: one node more and
      the old records plus `kv`. */
  lemma {:induction false} InsertInsAddsOneRecord(t: Tree<KeyValue>, kv: KeyValue)
    requires FindIns(t, kv.key).None?
    ensures Count(InsertIns(t, kv)) == Count(t) + 1
    ensures Bag(InsertIns(t, kv)) == Bag(t) + multiset{kv}
  {
    InsertInsInOrder(t, kv);
    var i :| 0 <= i <= |InOrder(t)| && InOrder(InsertIns(t, kv)) == InOrder(t)[..i] + [kv] + InOrder(t)[i..];
    InOrderVisitsEveryNodeOnce(t);
    InOrderVisitsEveryNodeOnce(InsertIns(t, kv));
    InsertedElement(InOrder(t), i, kv);
  }

  lemma {:induction false} InsertInsKeys(t: Tree<KeyValue>, kv: KeyValue)
    ensures Keys(InsertIns(t, kv)) == Keys(t) + {kv.key}
  {
    match t
    case Empty =>
    case Node(f, x, s) =>
      InsertInsKeys(f, kv);
      InsertInsKeys(s, kv);
  }

  /** `Insert` keeps its own ordering, and afterwards its descent finds the
      new record. */
  lemma {:induction false} InsertInsKeepsOrder(t: Tree<KeyValue>, kv: KeyValue)
    requires OrderedIns(t)
    ensures OrderedIns(InsertIns(t, kv))
    ensures FindIns(t, kv.key).None? ==> FindIns(InsertIns(t, kv), kv.key) == Some(kv)
  {
    match t
    case Empty =>
    case Node(f, x, s) =>
      InsertInsKeepsOrder(f, kv);
      InsertInsKeepsOrder(s, kv);
      InsertInsKeys(f, kv);
      InsertInsKeys(s, kv);
      StrcmpAntisymmetric(x.key, kv.key);
  }

  // ---------------------------------------------------------------------
  // Set

  /** `Set` keeps every key in its place: only values change. */
  lemma {:induction false} SetStdKeepsKeys(t: Tree<KeyValue>, kv: KeyValue)
    ensures KeyTree(SetStd(t, kv)) == KeyTree(t)
  {
    match t
    case Empty =>
    case Node(f, x, s) =>
      SetStdKeepsKeys(f, kv);
      SetStdKeepsKeys(s, kv);
  }

  /** `Set` of a key its descent does not find changes nothing. */
  lemma {:induction false} SetStdIgnoresMissingKey(t: Tree<KeyValue>, kv: KeyValue)
    requires FindStd(t, kv.key).None?
    ensures SetStd(t, kv) == t
  {
    match t
    case Empty =>
    case Node(f, x, s) =>
      if Strcmp(kv.key, x.key) < 0 {
        SetStdIgnoresMissingKey(f, kv);
      } else if Strcmp(kv.key, x.key) > 0 {
        SetStdIgnoresMissingKey(s, kv);
      }
  }

  lemma {:induction false} UpdateLeftPart<T>(a: seq<T>, i: nat, y: T, x: T, b: seq<T>)
    requires i < |a|
    ensures a[i := y] + [x] + b == (a + [x] + b)[i := y]
    ensures (a + [x] + b)[i] == a[i]
  {
  }

  lemma {:induction false} UpdateRightPart<T>(a: seq<T>, x: T, b: seq<T>, i: nat, y: T)
    requires i < |b|
    ensures a + [x] + b[i := y] == (a + [x] + b)[|a| + 1 + i := y]
    ensures (a + [x] + b)[|a| + 1 + i] == b[i]
  {
  }

  /** `Set` of a found key changes exactly the found record's position of
      the in-order sequence, which gets the new value and keeps its key. */
  lemma {:induction false} SetStdOverwritesOneValue(t: Tree<KeyValue>, kv: KeyValue)
    requires FindStd(t, kv.key).Some?
    ensures exists i :: (0 <= i < |InOrder(t)| && InOrder(t)[i] == FindStd(t, kv.key).value &&
      InOrder(SetStd(t, kv)) == InOrder(t)[i := KeyValue(InOrder(t)[i].key, kv.value)])
  {
    match t
    case Empty =>
    case Node(f, x, s) =>
      var c := Strcmp(kv.key, x.key);
      var a, b := InOrder(f), InOrder(s);
      assert InOrder(t) == a + [x] + b;
      if c == 0 {
        var i := |a|;
        assert SetStd(t, kv) == Node(f, x.(value := kv.value), s);
        assert InOrder(t)[i] == x;
        assert InOrder(SetStd(t, kv)) == InOrder(t)[i := KeyValue(InOrder(t)[i].key, kv.value)];
      } else if c < 0 {
        var f' := SetStd(f, kv);
        assert SetStd(t, kv) == Node(f', x, s);
        SetStdOverwritesOneValue(f, kv);
        var i :| 0 <= i < |a| && a[i] == FindStd(f, kv.key).value && InOrder(f') == a[i := KeyValue(a[i].key, kv.value)];
        UpdateLeftPart(a, i, KeyValue(a[i].key, kv.value), x, b);
        assert InOrder(t)[i] == FindStd(t, kv.key).value;
        assert InOrder(SetStd(t, kv)) == InOrder(t)[i := KeyValue(InOrder(t)[i].key, kv.value)];
      } else {
        var s' := SetStd(s, kv);
        assert SetStd(t, kv) == Node(f, x, s');
        SetStdOverwritesOneValue(s, kv);
        var i :| 0 <= i < |b| && b[i] == FindStd(s, kv.key).value && InOrder(s') == b[i := KeyValue(b[i].key, kv.value)];
        UpdateRightPart(a, x, b, i, KeyValue(b[i].key, kv.value));
        var j := |a| + 1 + i;
        assert InOrder(t)[j] == FindStd(t, kv.key).value;
        assert InOrder(SetStd(t, kv)) == InOrder(t)[j := KeyValue(InOrder(t)[j].key, kv.value)];
      }
  }

  /** After `Set`, the descent finds the record with the new value. */
  lemma {:induction false} SetStdThenFind(t: Tree<KeyValue>, kv: KeyValue)
    requires FindStd(t, kv.key).Some?
    ensures FindStd(SetStd(t, kv), kv.key) == Some(KeyValue(kv.key, kv.value))
  {
    match t
    case Empty =>
    case Node(f, x, s) =>
      if Strcmp(kv.key, x.key) < 0 {
        SetStdThenFind(f, kv);
      } else if Strcmp(kv.key, x.key) > 0 {
        SetStdThenFind(s, kv);
      }
  }

  // ---------------------------------------------------------------------
  // Remove

  /** `Remove` of a key its descent does not find changes nothing. */
  lemma {:induction false} RemoveStdIgnoresMissingKey(t: Tree<KeyValue>, key: Key)
    requires FindStd(t, key).None?
    ensures RemoveStd(t, key) == t
  {
    match t
    case Empty =>
    case Node(f, x, s) =>
      if Strcmp(key, x.key) < 0 {
        RemoveStdIgnoresMissingKey(f, key);
      } else if Strcmp(key, x.key) > 0 {
        RemoveStdIgnoresMissingKey(s, key);
      }
  }

  /** Removing the root leaves the in-order sequence of its two subtrees. */
  lemma {:induction false} RemoveRootInOrder(f: Tree<KeyValue>, x: KeyValue, s: Tree<KeyValue>)
    ensures InOrder(RemoveStd(Node(f, x, s), x.key)) == InOrder(f) + InOrder(s)
  {
    if f != Empty && s != Empty {
      DropLastInOrder(f);
      assert InOrder(RemoveStd(Node(f, x, s), x.key)) == InOrder(DropLast(f)) + [Last(f)] + InOrder(s);
    }
  }

  /** `Remove` of a found record: the in-order sequence loses exactly that
      record at one position. */
  lemma {:induction false} RemoveStdInOrder(t: Tree<KeyValue>, key: Key)
    requires FindStd(t, key).Some?
    ensures exists i :: (0 <= i < |InOrder(t)| && InOrder(t)[i] == FindStd(t, key).value &&
      InOrder(RemoveStd(t, key)) == InOrder(t)[..i] + InOrder(t)[i + 1..])
  {
    match t
    case Empty =>
    case Node(f, x, s) =>
      var c := Strcmp(key, x.key);
      var a, b := InOrder(f), InOrder(s);
      assert InOrder(t) == a + [x] + b;
      if c == 0 {
        RemoveRootInOrder(f, x, s);
        DeleteMiddle(a, x, b);
        assert InOrder(t)[|a|] == FindStd(t, key).value;
      } else if c < 0 {
        var f' := RemoveStd(f, key);
        assert RemoveStd(t, key) == Node(f', x, s);
        RemoveStdInOrder(f, key);
        var i :| 0 <= i < |a| && a[i] == FindStd(f, key).value && InOrder(f') == a[..i] + a[i + 1..];
        DeleteLeftPart(a, i, x, b);
        assert InOrder(t)[i] == FindStd(t, key).value;
        assert InOrder(RemoveStd(t, key)) == InOrder(t)[..i] + InOrder(t)[i + 1..];
      } else {
        var s' := RemoveStd(s, key);
        assert RemoveStd(t, key) == Node(f, x, s');
        RemoveStdInOrder(s, key);
        var i :| 0 <= i < |b| && b[i] == FindStd(s, key).value && InOrder(s') == b[..i] + b[i + 1..];
        DeleteRightPart(a, x, b, i);
        var j := |a| + 1 + i;
        assert InOrder(t)[j] == FindStd(t, key).value;
        assert InOrder(RemoveStd(t, key)) == InOrder(t)[..j] + InOrder(t)[j + 1..];
      }
  }

  lemma {:induction false} DeletedElement<T>(w: seq<T>, i: nat)
    requires i < |w|
    ensures multiset(w[..i] + w[i + 1..]) == multiset(w) - multiset{w[i]}
    ensures |w[..i] + w[i + 1..]| + 1 == |w|
  {
    assert w == w[..i] + [w[i]] + w[i + 1..];
  }

  /** `Remove` of a found record: the tree loses exactly that record, one
      node, and the in-order sequence loses it at one position. */
  lemma {:induction false} RemoveStdDropsOneRecord(t: Tree<KeyValue>, key: Key)
    requires FindStd(t, key).Some?
    ensures Count(RemoveStd(t, key)) + 1 == Count(t)
    ensures Bag(RemoveStd(t, key)) == Bag(t) - multiset{FindStd(t, key).value}
    ensures exists i :: (0 <= i < |InOrder(t)| && InOrder(t)[i] == FindStd(t, key).value &&
      InOrder(RemoveStd(t, key)) == InOrder(t)[..i] + InOrder(t)[i + 1..])
  {
    RemoveStdInOrder(t, key);
    var i :| 0 <= i < |InOrder(t)| && InOrder(t)[i] == FindStd(t, key).value &&
      InOrder(RemoveStd(t, key)) == InOrder(t)[..i] + InOrder(t)[i + 1..];
    InOrderVisitsEveryNodeOnce(t);
    InOrderVisitsEveryNodeOnce(RemoveStd(t, key));
    DeletedElement(InOrder(t), i);
  }

  lemma {:induction false} KeysAreInOrderKeys(t: Tree<KeyValue>)
    ensures Keys(t) == set i | 0 <= i < |InOrder(t)| :: InOrder(t)[i].key
  {
    KeysOfInOrder(t);
  }

  lemma {:induction false} DropLastKeys(t: Tree<KeyValue>)
    requires t != Empty
    ensures Keys(t) == Keys(DropLast(t)) + {Last(t).key}
  {
    if t.second != Empty {
      DropLastKeys(t.second);
    }
  }

  lemma {:induction false} DropLastOrdered(t: Tree<KeyValue>)
    requires t != Empty && OrderedStd(t)
    ensures OrderedStd(DropLast(t))
    ensures forall k | k in Keys(DropLast(t)) :: Less(k, Last(t).key)
  {
    if t.second != Empty {
      DropLastOrdered(t.second);
      DropLastKeys(t.second);
      forall k | k in Keys(t.first) ensures Less(k, Last(t).key) {
        StrcmpTransitive(k, t.val.key, Last(t).key);
      }
    }
  }

  lemma {:induction false} RemoveRootKeepsOrder(f: Tree<KeyValue>, x: KeyValue, s: Tree<KeyValue>)
    requires OrderedStd(Node(f, x, s))
    ensures OrderedStd(RemoveStd(Node(f, x, s), x.key))
    ensures Keys(RemoveStd(Node(f, x, s), x.key)) == Keys(Node(f, x, s)) - {x.key}
  {
    assert x.key !in Keys(f) && x.key !in Keys(s) by {
      LessTrichotomy(x.key, x.key);
    }
    if f != Empty && s != Empty {
      assert RemoveStd(Node(f, x, s), x.key) == Node(DropLast(f), Last(f), s);
      DropLastKeys(f);
      DropLastOrdered(f);
      forall k | k in Keys(s) ensures Less(Last(f).key, k) {
        StrcmpTransitive(Last(f).key, x.key, k);
      }
    }
  }

  /** On a tree ordered for `Remove`, removal keeps the ordering and removes
      exactly the key. */
  lemma {:induction false} RemoveStdKeepsOrder(t: Tree<KeyValue>, key: Key)
    requires OrderedStd(t)
    ensures OrderedStd(RemoveStd(t, key))
    ensures Keys(RemoveStd(t, key)) == Keys(t) - {key}
  {
    match t
    case Empty =>
    case Node(f, x, s) =>
      var c := Strcmp(key, x.key);
      StrcmpAntisymmetric(key, x.key);
      if c < 0 {
        RemoveStdKeepsOrder(f, key);
        assert RemoveStd(t, key) == Node(RemoveStd(f, key), x, s);
        assert key !in Keys(s) by { if key in Keys(s) { LessTrichotomy(key, x.key); } }
      } else if c > 0 {
        RemoveStdKeepsOrder(s, key);
        assert RemoveStd(t, key) == Node(f, x, RemoveStd(s, key));
        assert key !in Keys(f) by { if key in Keys(f) { LessTrichotomy(key, x.key); } }
      } else {
        RemoveRootKeepsOrder(f, x, s);
      }
  }

  // ---------------------------------------------------------------------
  // FromArray and Balance

  /** Front-to-back insertion into an `Insert`-ordered tree succeeds exactly
      when the records' keys are distinct and none is already stored. */
  lemma {:induction false} InsertAllSucceedsIffDistinct(t: Tree<KeyValue>, s: seq<KeyValue>)
    requires OrderedIns(t)
    ensures InsertAll(t, s).Some? <==> DistinctKeys(s) && forall i | 0 <= i < |s| :: s[i].key !in Keys(t)
    decreases |s|
  {
    if s != [] {
      var kv, rest := s[0], s[1..];
      FindInsComplete(t, kv.key);
      if FindIns(t, kv.key).None? {
        var t' := InsertIns(t, kv);
        InsertInsKeepsOrder(t, kv);
        InsertInsKeys(t, kv);
        InsertAllSucceedsIffDistinct(t', rest);
        assert forall i | 1 <= i < |s| :: s[i] == rest[i - 1];
        if DistinctKeys(s) && forall i | 0 <= i < |s| :: s[i].key !in Keys(t) {
          assert DistinctKeys(rest);
          assert forall i | 0 <= i < |rest| :: rest[i].key != kv.key;
        }
      }
    }
  }

  /** A successful front-to-back insertion yields an `Insert`-ordered
      tree. */
  lemma {:induction false} InsertAllOrdered(t: Tree<KeyValue>, s: seq<KeyValue>)
    requires OrderedIns(t) && InsertAll(t, s).Some?
    ensures OrderedIns(InsertAll(t, s).value)
    decreases |s|
  {
    if s != [] {
      InsertInsKeepsOrder(t, s[0]);
      InsertAllOrdered(InsertIns(t, s[0]), s[1..]);
    }
  }

  /** A successful front-to-back insertion holds the old records and the new
      ones. */
  lemma {:induction false} InsertAllContents(t: Tree<KeyValue>, s: seq<KeyValue>)
    requires InsertAll(t, s).Some?
    ensures Bag(InsertAll(t, s).value) == Bag(t) + multiset(s)
    ensures Count(InsertAll(t, s).value) == Count(t) + |s|
    decreases |s|
  {
    if s != [] {
      var kv, rest := s[0], s[1..];
      InsertAllStep(t, s);
      var t' := InsertIns(t, kv);
      InsertInsAddsOneRecord(t, kv);
      InsertAllContents(t', rest);
      BagStep(Bag(InsertAll(t', rest).value), Bag(t'), Bag(t), s);
    }
  }

  /** The first step of a successful front-to-back insertion. */
  lemma {:induction false} InsertAllStep(t: Tree<KeyValue>, s: seq<KeyValue>)
    requires s != [] && InsertAll(t, s).Some?
    ensures FindIns(t, s[0].key).None?
    ensures InsertAll(InsertIns(t, s[0]), s[1..]) == InsertAll(t, s)
  {
  }

  lemma {:induction false} BagStep(r: multiset<KeyValue>, b': multiset<KeyValue>, b: multiset<KeyValue>,
                                   s: seq<KeyValue>)
    requires s != [] && r == b' + multiset(s[1..]) && b' == b + multiset{s[0]}
    ensures r == b + multiset(s)
  {
    assert s == [s[0]] + s[1..];
    assert multiset(s) == multiset{s[0]} + multiset(s[1..]);
  }

  /** A record whose key is below every key of a chain is placed at the end
      of the chain by `Insert`. */
  lemma {:induction false} InsertInsExtendsChain(p: seq<KeyValue>, kv: KeyValue)
    requires forall i | 0 <= i < |p| :: Less(kv.key, p[i].key)
    ensures FindIns(Chain(p), kv.key).None?
    ensures InsertIns(Chain(p), kv) == Chain(p + [kv])
  {
    if p != [] {
      StrcmpAntisymmetric(p[0].key, kv.key);
      InsertInsExtendsChain(p[1..], kv);
      assert (p + [kv])[1..] == p[1..] + [kv];
    }
  }

  lemma {:induction false} InsertAllIntoChain(p: seq<KeyValue>, s: seq<KeyValue>)
    requires Descending(p + s)
    ensures InsertAll(Chain(p), s) == Some(Chain(p + s))
    decreases |s|
  {
    if s == [] {
      assert p + s == p;
    } else {
      forall i | 0 <= i < |p| ensures Less(s[0].key, p[i].key) {
        assert (p + s)[i] == p[i] && (p + s)[|p|] == s[0];
      }
      InsertInsExtendsChain(p, s[0]);
      assert p + s == (p + [s[0]]) + s[1..];
      InsertAllIntoChain(p + [s[0]], s[1..]);
    }
  }

  lemma {:induction false} ChainInOrder(s: seq<KeyValue>)
    ensures InOrder(Chain(s)) == s
    ensures Height(Chain(s)) == |s|
  {
    if s != [] {
      ChainInOrder(s[1..]);
    }
  }

  /** Rebuilding a tree by inserting its in-order records front to back
      (what `Balance` does) keeps the in-order sequence of an
      `Insert`-ordered tree, but yields a chain as tall as the tree has
      nodes. */
  lemma {:induction false} RebuildIsChain(t: Tree<KeyValue>)
    requires OrderedIns(t)
    ensures InsertAll(Empty, InOrder(t)) == Some(Chain(InOrder(t)))
    ensures InOrder(Chain(InOrder(t))) == InOrder(t)
    ensures Height(Chain(InOrder(t))) == Count(t)
  {
    OrderedInsInOrderDescending(t);
    InsertAllIntoChain([], InOrder(t));
    assert [] + InOrder(t) == InOrder(t);
    ChainInOrder(InOrder(t));
    InOrderVisitsEveryNodeOnce(t);
  }

  /** The two descent conventions disagree: after inserting two records
      with different keys into an empty tree, the descent of `Set` and
      `Remove` misses the second one, which `Exist` and `Get` find; so
      `Set` and `Remove` leave the tree as it is. */
  lemma {:induction false} SetAndRemoveMissSecondInsert(a: KeyValue, b: KeyValue)
    requires a.key != b.key
    ensures OrderedIns(InsertIns(InsertIns(Empty, a), b))
    ensures FindIns(InsertIns(InsertIns(Empty, a), b), b.key) == Some(b)
    ensures FindStd(InsertIns(InsertIns(Empty, a), b), b.key) == None
    ensures SetStd(InsertIns(InsertIns(Empty, a), b), b) == InsertIns(InsertIns(Empty, a), b)
    ensures RemoveStd(InsertIns(InsertIns(Empty, a), b), b.key) == InsertIns(InsertIns(Empty, a), b)
  {
    var t := InsertIns(InsertIns(Empty, a), b);
    StrcmpAntisymmetric(a.key, b.key);
    InsertInsKeepsOrder(InsertIns(Empty, a), b);
    FindInsFindsStoredRecord(t, b.key);
    SetStdIgnoresMissingKey(t, b);
    RemoveStdIgnoresMissingKey(t, b.key);
  }
}
