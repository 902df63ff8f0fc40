/** Whole runs of the tree against a plain map. */
module TreeRuns {
  import opened Basics
  import opened Bytes
  import opened NodeSize
  import opened Nodes
  import opened Trees
  import opened PagedTrees
  import opened PageStores
  import opened BTrees
  import opened BPlusTree
  import TI = TreeInsert
  import TD = TreeDelete
  import TS = TreeSizes

  datatype Op = Put(key: seq<byte>, val: seq<byte>) | Remove(key: seq<byte>) | Read(key: seq<byte>)

  datatype Answer = Done | Removed(found: bool) | Value(value: Option<seq<byte>>)

  // The plain map.

  function MapStep(m: Store, op: Op): (Store, Answer) {
    match op
    case Put(k, v) => (m[k := v], Done)
    case Remove(k) => (m - {k}, Removed(k in m))
    case Read(k) => (m, Value(Lookup(m, k)))
  }

  function MapAnswers(m: Store, ops: seq<Op>): seq<Answer> {
    if ops == [] then []
    else MapAnswers(m, ops[..|ops| - 1]) + [MapStep(MapAfter(m, ops[..|ops| - 1]), ops[|ops| - 1]).1]
  }

  function MapAfter(m: Store, ops: seq<Op>): Store {
    if ops == [] then m else MapStep(MapAfter(m, ops[..|ops| - 1]), ops[|ops| - 1]).0
  }

  // The tree.

  ghost function TreeStep(o: Option<Tree>, op: Op): Option<Tree> {
    match op
    case Put(k, v) => Some(TI.Insert(o, k, v))
    case Remove(k) => TD.Delete(o, k).1
    case Read(_) => o
  }

  ghost predicate StepFits(o: Option<Tree>, op: Op) {
    match op
    case Put(k, v) => InsertFits(o, k, v)
    case Remove(k) => DeleteFits(o, k)
    case Read(_) => true
  }

  ghost function TreeAfter(o: Option<Tree>, ops: seq<Op>): Option<Tree> {
    if ops == [] then o else TreeStep(TreeAfter(o, ops[..|ops| - 1]), ops[|ops| - 1])
  }

  /** Every node built during the run fits its buffer. */
  ghost predicate RunFits(o: Option<Tree>, ops: seq<Op>) {
    forall i :: 0 <= i < |ops| ==> StepFits(TreeAfter(o, ops[..i]), ops[i])
  }

  /** One operation on the tree object. */
  method Perform(tree: BTree, op: Op) returns (a: Answer)
    requires tree.Valid() && StepFits(tree.Tree(), op)
    modifies tree, tree.store`pages, tree.store`live
    ensures tree.Valid() && tree.Tree() == TreeStep(old(tree.Tree()), op)
    ensures (tree.Contents(), a) == MapStep(old(tree.Contents()), op)
    ensures Kept(old(tree.store.pages), tree.store, multiset{})
  {
    match op
    case Put(k, v) =>
      var _ := tree.Insert(k, v);
      a := Done;
    case Remove(k) =>
      var found, _ := tree.Delete(k);
      a := Removed(found);
    case Read(k) =>
      var r := tree.Get(k);
      a := Value(r);
  }

  /** What the first `i` operations of a run have led to. */
  ghost predicate Ran(o: Option<Tree>, m: Store, ops: seq<Op>, i: nat, t: Option<Tree>, c: Store,
                      answers: seq<Answer>) {
    && i <= |ops| && t == TreeAfter(o, ops[..i])
    && c == MapAfter(m, ops[..i]) && answers == MapAnswers(m, ops[..i])
  }

  lemma RanStep(o: Option<Tree>, m: Store, ops: seq<Op>, i: nat, t: Option<Tree>, c: Store,
                answers: seq<Answer>, a: Answer)
    requires Ran(o, m, ops, i, t, c, answers) && i < |ops| && MapStep(c, ops[i]).1 == a
    ensures Ran(o, m, ops, i + 1, TreeStep(t, ops[i]), MapStep(c, ops[i]).0, answers + [a])
  {
    assert ops[..i + 1][..i] == ops[..i];
  }

  /**
   Every run whose nodes fit answers like the plain map; the tree is well formed and accounts
   for every page after each operation, and any earlier tree on pinned pages is still stored.
   */
  method Execute(tree: BTree, ops: seq<Op>) returns (answers: seq<Answer>)
    requires tree.Valid() && RunFits(tree.Tree(), ops)
    modifies tree, tree.store`pages, tree.store`live
    ensures tree.Valid()
    ensures answers == MapAnswers(old(tree.Contents()), ops)
    ensures tree.Contents() == MapAfter(old(tree.Contents()), ops)
    ensures forall p :: Stored(old(tree.store.pages), p) && PinnedTree(tree.store, p) ==> Stored(tree.store.pages, p)
  {
    ghost var o, m, before := tree.Tree(), tree.Contents(), tree.store.pages;
    answers := [];
    var i := 0;
    while i < |ops|
      invariant tree.Valid() && Kept(before, tree.store, multiset{})
      invariant Ran(o, m, ops, i, tree.Tree(), tree.Contents(), answers)
    {
      ghost var mid, t, c := tree.store.pages, tree.Tree(), tree.Contents();
      var a := Perform(tree, ops[i]);
      AgreeTrans(before, mid, tree.store.pages, multiset{} + multiset(tree.store.pinned));
      RanStep(o, m, ops, i, t, c, answers, a);
      answers := answers + [a];
      i := i + 1;
    }
    assert ops[..i] == ops;
    forall p | Stored(before, p) && PinnedTree(tree.store, p) ensures Stored(tree.store.pages, p) {
      StoredFrame(before, tree.store.pages, p);
    }
  }

  ghost predicate PinnedTree(store: PageStore, p: PTree)
    reads store
  {
    forall x :: x in Ptrs(p) ==> x in store.pinned
  }

  /** A snapshot: after any later run, the root of now still answers from the contents of now. */
  method ReadSnapshot(tree: BTree, ops: seq<Op>, key: seq<byte>)
    returns (answers: seq<Answer>, r: Option<seq<byte>>)
    requires tree.Valid() && RunFits(tree.Tree(), ops)
    modifies tree, tree.store
    ensures tree.Valid()
    ensures answers == MapAnswers(old(tree.Contents()), ops)
    ensures tree.Contents() == MapAfter(old(tree.Contents()), ops)
    ensures r == Lookup(old(tree.Contents()), key)
  {
    var root := tree.root;
    ghost var top := tree.top;
    tree.store.PinLive();
    assert top.Some? ==> forall x :: x in Ptrs(top.value) ==> x in multiset(tree.store.live);
    answers := Execute(tree, ops);
    if root == 0 {
      r := None;
    } else {
      r := GetFrom(tree.store, root, top.value, key);
    }
  }

  // ---------------------------------------------------------------------------------------
  // Runs that always fit.
  // ---------------------------------------------------------------------------------------

  predicate OpSized(op: Op, len: nat, max: nat) {
    op.Put? ==> TS.EntrySized(KV(op.key, op.val), len, max)
  }

  ghost predicate TopSized(o: Option<Tree>, len: nat, max: nat) {
    o.Some? ==> TS.Sized(o.value, len, max)
  }

  lemma StepSized(o: Option<Tree>, h: nat, op: Op, len: nat, max: nat) returns (h': nat)
    requires TS.Workable(len, max) && OpSized(op, len, max) && GoodTop(o, h) && TopSized(o, len, max)
    ensures StepFits(o, op) && GoodTop(TreeStep(o, op), h') && TopSized(TreeStep(o, op), len, max)
  {
    h' := h;
    match op
    case Put(k, v) =>
      h' := HeightAfter(o, h, k, v);
      InsertKeeps(o, h, k, v);
      if o.Some? {
        TS.InsertSized(o.value, k, v, len, max);
      } else {
        assert SizesOf(Leaf([KV(k, v)])) == [4 + |k| + |v|];
        assert Sum([4 + |k| + |v|]) == 4 + |k| + |v| by { assert [4 + |k| + |v|][..0] == []; }
      }
    case Remove(k) =>
      if o.Some? {
        TS.DeleteSizedFits(o.value, h, k, len, max);
        TS.DeleteSized(o.value, k, len, max);
        TD.DeleteCorrect(o.value, h, k);
      }
    case Read(_) =>
  }

  lemma {:induction false} TreeAfterSized(o: Option<Tree>, h: nat, ops: seq<Op>, len: nat, max: nat) returns (h': nat)
    requires TS.Workable(len, max) && GoodTop(o, h) && TopSized(o, len, max)
    requires forall i :: 0 <= i < |ops| ==> OpSized(ops[i], len, max)
    ensures GoodTop(TreeAfter(o, ops), h') && TopSized(TreeAfter(o, ops), len, max)
    decreases |ops|
  {
    h' := h;
    if ops != [] {
      h' := TreeAfterSized(o, h, ops[..|ops| - 1], len, max);
      h' := StepSized(TreeAfter(o, ops[..|ops| - 1]), h', ops[|ops| - 1], len, max);
    }
  }

  /** With one key length and bounded entries, every run of operations fits. */
  lemma SizedRunFits(o: Option<Tree>, h: nat, ops: seq<Op>, len: nat, max: nat)
    requires TS.Workable(len, max) && GoodTop(o, h) && TopSized(o, len, max)
    requires forall i :: 0 <= i < |ops| ==> OpSized(ops[i], len, max)
    ensures RunFits(o, ops)
  {
    forall i | 0 <= i < |ops| ensures StepFits(TreeAfter(o, ops[..i]), ops[i]) {
      var h' := TreeAfterSized(o, h, ops[..i], len, max);
      h' := StepSized(TreeAfter(o, ops[..i]), h', ops[i], len, max);
    }
  }

  /** The tree from empty, under the size discipline: no assumption about fitting is left. */
  method ExecuteSized(ops: seq<Op>, ghost len: nat, ghost max: nat) returns (answers: seq<Answer>)
    requires TS.Workable(len, max)
    requires forall i :: 0 <= i < |ops| ==> OpSized(ops[i], len, max)
    ensures answers == MapAnswers(map[], ops)
  {
    SizedRunFits(None, 0, ops, len, max);
    var store := new PageStore();
    var tree := new BTree(store);
    answers := Execute(tree, ops);
  }
}
