/** treeInsert, nodeSplit3 and Insert as functions on trees, and what they keep. */
module TreeInsert {
  import opened Basics
  import opened Bytes
  import opened NodeSize
  import opened Trees

  /** nodeSplit2. */
  function Halves(t: Tree): (Tree, Tree)
    requires Count(t) > 0
  {
    SplitPoint(SizesOf(t));
    var i := SplitIdx(SizesOf(t));
    (Slice(t, 0, i), Slice(t, i, Count(t)))
  }

  /** The end of nodeSplit3: a left half that is still too large is split again. */
  function SplitLeft(left: Tree, right: Tree): (r: seq<Tree>)
    ensures 2 <= |r| <= 3
  {
    if NBytes(left) <= PAGE_SIZE || Count(left) == 0 then [left, right]
    else [Halves(left).0, Halves(left).1, right]
  }

  /** nodeSplit3: one, two or three pieces. */
  function Split3(t: Tree): (r: seq<Tree>)
    ensures 1 <= |r| <= 3
  {
    if NBytes(t) <= PAGE_SIZE || Count(t) == 0 then [t]
    else SplitLeft(Halves(t).0, Halves(t).1)
  }

  /** treeInsert: the rebuilt node, not yet split. */
  function InsertNode(t: Tree, k: seq<byte>, v: seq<byte>): Tree {
    var idx := LookupLE(KeysOf(t), k);
    match t
    case Leaf(kvs) =>
      if kvs != [] && kvs[idx].key == k then Leaf(kvs[..idx] + [KV(k, v)] + kvs[idx + 1..])
      else
        var at := if kvs != [] && Less(kvs[idx].key, k) then idx + 1 else idx;
        Leaf(kvs[..at] + [KV(k, v)] + kvs[at..])
    case Inner(kids) =>
      if kids == [] then t
      else Inner(kids[..idx] + Split3(InsertNode(kids[idx], k, v)) + kids[idx + 1..])
  }

  /** The entries of a leaf that give way to the new one: the key's own, or none between two. */
  function Spot(kvs: seq<KV>, k: seq<byte>): (r: (nat, nat))
    ensures r.0 <= r.1 <= |kvs|
  {
    var idx := LookupLE(KeysOf(Leaf(kvs)), k);
    if kvs == [] then (0, 0)
    else if kvs[idx].key == k then (idx, idx + 1)
    else if Less(kvs[idx].key, k) then (idx + 1, idx + 1)
    else (idx, idx)
  }

  lemma LeafIs(kvs: seq<KV>, k: seq<byte>, v: seq<byte>)
    ensures var (i, j) := Spot(kvs, k);
            InsertNode(Leaf(kvs), k, v) == Leaf(kvs[..i] + [KV(k, v)] + kvs[j..])
  {
  }

  /** Insert on a non-empty tree: a split root gets a new root above it. */
  function InsertRoot(t: Tree, k: seq<byte>, v: seq<byte>): Tree {
    var pieces := Split3(InsertNode(t, k, v));
    if |pieces| > 1 then Inner(pieces) else pieces[0]
  }

  /** Insert; None is the tree whose root pointer is 0. */
  function Insert(o: Option<Tree>, k: seq<byte>, v: seq<byte>): Tree {
    match o
    case None => Leaf([KV(k, v)])
    case Some(t) => InsertRoot(t, k, v)
  }

  // ---------------------------------------------------------------------------------------
  // Contents.
  // ---------------------------------------------------------------------------------------

  lemma HalvesSizes(t: Tree)
    requires Count(t) > 0
    ensures var s, i := SizesOf(t), SplitIdx(SizesOf(t));
            && 1 <= i <= |s|
            && SizesOf(Halves(t).0) == s[..i] && SizesOf(Halves(t).1) == s[i..]
  {
    var s, i := SizesOf(t), SplitIdx(SizesOf(t));
    SplitPoint(s);
    SizesOfSlice(t, 0, i);
    SizesOfSlice(t, i, Count(t));
    assert s[0..i] == s[..i] && s[i..|s|] == s[i..];
  }

  lemma HalvesFlat(t: Tree)
    requires Count(t) > 0
    ensures Flat(Halves(t).0) + Flat(Halves(t).1) == Flat(t)
  {
    SplitPoint(SizesOf(t));
    FlatSlices(t, SplitIdx(SizesOf(t)));
  }

  /** The three ways in which a node is split. */
  lemma Split3Cases(t: Tree)
    ensures var r := Split3(t);
            || r == [t]
            || (Count(t) > 0 && NBytes(t) > PAGE_SIZE
                && var (left, right) := Halves(t);
                   || r == [left, right]
                   || (Count(left) > 0 && NBytes(left) > PAGE_SIZE
                       && r == [Halves(left).0, Halves(left).1, right]))
  {
  }

  /** A node of at most 4096 bytes stays whole; a larger one is halved, and its left half again if still larger. */
  lemma SplitWhen(t: Tree)
    requires Count(t) > 0
    ensures if NBytes(t) <= 4096 then Split3(t) == [t]
            else
              var (left, right) := Halves(t);
              Split3(t) == if NBytes(left) <= 4096 then [left, right] else [Halves(left).0, Halves(left).1, right]
  {
    SplitPoint(SizesOf(t));
    assert NBytes(t) > 4096 ==> Count(Halves(t).0) > 0;
  }

  /** Splitting loses nothing and keeps the order. */
  lemma Split3Flat(t: Tree)
    ensures FlatAll(Split3(t)) == Flat(t)
  {
    var r := Split3(t);
    Split3Cases(t);
    if r == [t] {
      FlatAllOne(t);
    } else {
      var (left, right) := Halves(t);
      HalvesFlat(t);
      if r == [left, right] {
        FlatAllTwo(left, right);
      } else {
        HalvesFlat(left);
        var (ll, mid) := Halves(left);
        FlatAllConcat([ll, mid], [right]);
        FlatAllTwo(ll, mid);
        FlatAllOne(right);
        assert r == [ll, mid] + [right];
      }
    }
  }

  lemma InsOne(kv: KV, k: seq<byte>, v: seq<byte>)
    ensures Ins([kv], k, v) == if Less(k, kv.key) then [KV(k, v), kv]
                               else if kv.key == k then [KV(k, v)]
                               else [kv, KV(k, v)]
  {
    assert [kv][1..] == [];
  }

  lemma SpliceAt(s: seq<KV>, i: nat, x: KV)
    requires i < |s|
    ensures s[..i] + [x] + s[i..] == s[..i] + [x, s[i]] + s[i + 1..]
    ensures s[..i + 1] + [x] + s[i + 1..] == s[..i] + [s[i], x] + s[i + 1..]
  {
  }

  lemma LeafInsertFlat(kvs: seq<KV>, k: seq<byte>, v: seq<byte>)
    requires Sorted(kvs)
    ensures Flat(InsertNode(Leaf(kvs), k, v)) == Ins(kvs, k, v)
  {
    if kvs == [] { return; }
    var idx := LookupLE(KeysOf(Leaf(kvs)), k);
    LeafRange(kvs, idx, k);
    LessTotal(k, kvs[idx].key);
    InsBetween(kvs[..idx], [kvs[idx]], kvs[idx + 1..], k, v);
    InsOne(kvs[idx], k, v);
    SpliceAt(kvs, idx, KV(k, v));
  }

  lemma {:induction false} InsertNodeFlat(t: Tree, k: seq<byte>, v: seq<byte>)
    requires Full(t) && Sorted(Flat(t))
    ensures Flat(InsertNode(t, k, v)) == Ins(Flat(t), k, v)
  {
    match t
    case Leaf(kvs) =>
      LeafInsertFlat(kvs, k, v);
    case Inner(kids) =>
      var idx := LookupLE(KeysOf(t), k);
      ChildRange(kids, idx, k);
      InsertNodeFlat(kids[idx], k, v);
      var kid := InsertNode(kids[idx], k, v);
      Split3Flat(kid);
      FlatAllReplaced(kids, idx, Split3(kid));
      FlatAllAround(kids, idx);
      InsBetween(FlatAll(kids[..idx]), Flat(kids[idx]), FlatAll(kids[idx + 1..]), k, v);
  }

  // ---------------------------------------------------------------------------------------
  // Shape.
  // ---------------------------------------------------------------------------------------

  lemma HalvesUniform(t: Tree, h: nat)
    requires Uniform(t, h) && Count(t) > 0
    ensures Uniform(Halves(t).0, h) && Uniform(Halves(t).1, h)
  {
    SplitPoint(SizesOf(t));
  }

  lemma Split3Uniform(t: Tree, h: nat)
    requires Uniform(t, h)
    ensures AllUniform(Split3(t), h)
  {
    Split3Cases(t);
    if |Split3(t)| > 1 {
      HalvesUniform(t, h);
      if |Split3(t)| > 2 {
        HalvesUniform(Halves(t).0, h);
      }
    }
  }

  lemma {:induction false} InsertNodeUniform(t: Tree, h: nat, k: seq<byte>, v: seq<byte>)
    requires Uniform(t, h)
    ensures Uniform(InsertNode(t, k, v), h)
  {
    if t.Leaf? {
      LeafStays(t, k, v);
    } else if t.kids == [] {
      EmptyStays(t, k, v);
    } else {
      var idx := LookupLE(KeysOf(t), k);
      UniformKid(t, h, idx);
      InsertNodeUniform(t.kids[idx], h - 1, k, v);
      InsertedUniform(t.kids, idx, k, v, InsertNode(t.kids[idx], k, v), h - 1);
    }
  }

  lemma UniformKid(t: Tree, h: nat, i: nat)
    requires Uniform(t, h) && t.Inner? && i < |t.kids|
    ensures h > 0 && AllUniform(t.kids, h - 1) && Uniform(t.kids[i], h - 1)
  {
  }

  lemma EmptyStays(t: Tree, k: seq<byte>, v: seq<byte>)
    requires t == Inner([])
    ensures InsertNode(t, k, v) == t
  {
  }

  lemma LeafStays(t: Tree, k: seq<byte>, v: seq<byte>)
    requires t.Leaf?
    ensures InsertNode(t, k, v).Leaf?
  {
  }

  lemma InsertedUniform(kids: seq<Tree>, idx: nat, k: seq<byte>, v: seq<byte>, kid: Tree, h: nat)
    requires AllUniform(kids, h) && Uniform(kid, h)
    requires kids != [] && idx == LookupLE(KeysOf(Inner(kids)), k) && kid == InsertNode(kids[idx], k, v)
    ensures Uniform(InsertNode(Inner(kids), k, v), h + 1)
  {
    Split3Uniform(kid, h);
    SpliceUniform(kids, idx, idx + 1, Split3(kid), h);
  }

  /** Every piece fits the buffer it is built in. */
  predicate PiecesFit(t: Tree) {
    forall i :: 0 <= i < |Split3(t)| ==> NBytes(Split3(t)[i]) <= PAGE_SIZE
  }

  /** A node whose entries are mostly overhead is its own left half. */
  lemma HalvesOfOverhead(t: Tree)
    requires Count(t) > 0 && AllOverhead(SizesOf(t))
    ensures Halves(t).0 == t
  {
    RightHalfEmptyIff(SizesOf(t));
  }

  lemma HalvesFull(t: Tree)
    requires Full(t)
    ensures Full(Halves(t).0)
    ensures Full(Halves(t).1) <==> !AllOverhead(SizesOf(t))
  {
    SplitPoint(SizesOf(t));
    RightHalfEmptyIff(SizesOf(t));
  }

  /**
   A split into pieces that fit leaves none of them empty: the only node with an empty right
   half is its own left half, and so does not get any smaller.
   */
  lemma Split3Full(t: Tree)
    requires Full(t) && PiecesFit(t)
    ensures AllFull(Split3(t))
  {
    var r := Split3(t);
    Split3Cases(t);
    assert NBytes(r[0]) <= PAGE_SIZE;
    if r != [t] {
      var (left, right) := Halves(t);
      BothHalvesFull(t);
      if r != [left, right] {
        BothHalvesFull(left);
      }
    }
  }

  lemma BothHalvesFull(t: Tree)
    requires Full(t)
    ensures Full(Halves(t).0) && (Halves(t).0 != t ==> Full(Halves(t).1))
  {
    HalvesFull(t);
    if AllOverhead(SizesOf(t)) {
      HalvesOfOverhead(t);
    }
  }

  /** Oversized nodes whose entries are mostly overhead are never split to size. */
  lemma OverheadNeverFits(t: Tree)
    requires Full(t) && NBytes(t) > PAGE_SIZE && AllOverhead(SizesOf(t))
    ensures !PiecesFit(t)
  {
    HalvesOfOverhead(t);
    assert Split3(t)[0] == t;
  }

  lemma SplicedFull(kids: seq<Tree>, idx: nat, kid: Tree)
    requires idx < |kids| && AllFull(kids) && Full(kid) && PiecesFit(kid)
    ensures Full(Inner(kids[..idx] + Split3(kid) + kids[idx + 1..]))
  {
    Split3Full(kid);
    SpliceFull(kids, idx, idx + 1, Split3(kid));
  }

  lemma {:induction false} InsertNodeFull(t: Tree, k: seq<byte>, v: seq<byte>)
    requires Full(t) && InsertFits(t, k, v)
    ensures Full(InsertNode(t, k, v))
  {
    match t
    case Leaf(_) =>
    case Inner(kids) =>
      var idx := LookupLE(KeysOf(t), k);
      InsertNodeFull(kids[idx], k, v);
      SplicedFull(kids, idx, InsertNode(kids[idx], k, v));
  }

  // ---------------------------------------------------------------------------------------
  // Sizes.
  // ---------------------------------------------------------------------------------------

  /** Every node that the insertion builds below the root fits its buffer. */
  predicate InsertFits(t: Tree, k: seq<byte>, v: seq<byte>) {
    && NBytes(InsertNode(t, k, v)) <= 2 * PAGE_SIZE
    && (t.Inner? && t.kids != [] ==>
          var kid := t.kids[LookupLE(KeysOf(t), k)];
          InsertFits(kid, k, v) && PiecesFit(InsertNode(kid, k, v)))
  }

  predicate InsertRootFits(t: Tree, k: seq<byte>, v: seq<byte>) {
    && InsertFits(t, k, v)
    && PiecesFit(InsertNode(t, k, v))
    && NBytes(InsertRoot(t, k, v)) <= PAGE_SIZE
  }

  lemma HalvesKidsFit(t: Tree)
    requires KidsFit(t) && Count(t) > 0
    ensures KidsFit(Halves(t).0) && KidsFit(Halves(t).1)
  {
    SplitPoint(SizesOf(t));
  }

  lemma Split3KidsFit(t: Tree)
    requires KidsFit(t) && PiecesFit(t)
    ensures AllFit(Split3(t))
  {
    Split3Cases(t);
    var r := Split3(t);
    if |r| > 1 {
      HalvesKidsFit(t);
      if |r| > 2 {
        HalvesKidsFit(Halves(t).0);
      }
    }
    forall i | 0 <= i < |r| ensures Fit(r[i]) {
      FitAlone(r[i]);
    }
  }

  lemma FitAlone(t: Tree)
    requires KidsFit(t) && NBytes(t) <= PAGE_SIZE
    ensures Fit(t)
  {
  }

  lemma {:induction false} InsertNodeFit(t: Tree, k: seq<byte>, v: seq<byte>)
    requires KidsFit(t) && InsertFits(t, k, v)
    ensures KidsFit(InsertNode(t, k, v))
  {
    if t.Inner? && t.kids != [] {
      var idx := LookupLE(KeysOf(t), k);
      InsertNodeFit(t.kids[idx], k, v);
      Split3KidsFit(InsertNode(t.kids[idx], k, v));
      SpliceFit(t.kids, idx, idx + 1, Split3(InsertNode(t.kids[idx], k, v)));
    }
  }

  // ---------------------------------------------------------------------------------------
  // Insert as a whole.
  // ---------------------------------------------------------------------------------------

  lemma InsertRootFlat(t: Tree, k: seq<byte>, v: seq<byte>)
    requires Full(t) && Sorted(Flat(t))
    ensures Flat(InsertRoot(t, k, v)) == Ins(Flat(t), k, v)
  {
    InsertNodeFlat(t, k, v);
    Split3Flat(InsertNode(t, k, v));
    FlatAllOne(Split3(InsertNode(t, k, v))[0]);
  }

  function HeightAfter(t: Tree, h: nat, k: seq<byte>, v: seq<byte>): nat {
    if |Split3(InsertNode(t, k, v))| > 1 then h + 1 else h
  }

  lemma InsertRootUniform(t: Tree, h: nat, k: seq<byte>, v: seq<byte>)
    requires Uniform(t, h)
    ensures Uniform(InsertRoot(t, k, v), HeightAfter(t, h, k, v))
  {
    InsertNodeUniform(t, h, k, v);
    Split3Uniform(InsertNode(t, k, v), h);
  }

  lemma InsertRootFull(t: Tree, k: seq<byte>, v: seq<byte>)
    requires Full(t) && InsertRootFits(t, k, v)
    ensures Full(InsertRoot(t, k, v))
  {
    InsertNodeFull(t, k, v);
    Split3Full(InsertNode(t, k, v));
  }

  lemma InsertRootFit(t: Tree, k: seq<byte>, v: seq<byte>)
    requires KidsFit(t) && InsertRootFits(t, k, v)
    ensures Fit(InsertRoot(t, k, v))
  {
    InsertNodeFit(t, k, v);
    Split3KidsFit(InsertNode(t, k, v));
  }

  /**
   Insert into a good tree binds the key and nothing else, and when every built node fits its
   buffer the result is a good tree again.
   */
  lemma InsertCorrect(t: Tree, h: nat, k: seq<byte>, v: seq<byte>)
    requires Good(t, h)
    ensures Flat(InsertRoot(t, k, v)) == Ins(Flat(t), k, v)
    ensures AsMap(Flat(InsertRoot(t, k, v))) == AsMap(Flat(t))[k := v]
    ensures InsertRootFits(t, k, v) ==> Good(InsertRoot(t, k, v), HeightAfter(t, h, k, v))
  {
    InsertRootFlat(t, k, v);
    InsSorted(Flat(t), k, v);
    AsMapIns(Flat(t), k, v);
    InsertRootUniform(t, h, k, v);
    if InsertRootFits(t, k, v) {
      InsertRootFull(t, k, v);
      InsertRootFit(t, k, v);
    }
  }
}
