/**
 A size discipline under which every node built by every run fits its page: all keys have one
 length and no leaf entry is too large. Then an oversized node always splits into exactly two
 non-empty halves that fit, and no page ever overflows.
 */
module TreeSizes {
  import opened Basics
  import opened Bytes
  import opened NodeSize
  import opened Trees
  import opened TreeInsert
  import opened TreeDelete

  /** Key length `len` and largest packed entry `max` that the page size allows. */
  predicate Workable(len: nat, max: nat) {
    && 4 + len <= max <= 1362
    && (14 + len) * ((4106 + max) / 2) <= 4092 * (4 + len)
  }

  /** The sizes of the test suite's keys and beyond: 9-byte keys with entries up to 500 bytes. */
  lemma WorkableSizes(len: nat, max: nat)
    requires 4 + len <= max
    ensures len >= 9 && max <= 500 ==> Workable(len, max)
    ensures len >= 17 && max <= 1362 ==> Workable(len, max)
  {
    if len >= 9 && max <= 500 {
      assert (4106 + max) / 2 <= 2303;
      MulLessEq(14 + len, (4106 + max) / 2, 2303);
    } else if len >= 17 && max <= 1362 {
      assert (4106 + max) / 2 <= 2734;
      MulLessEq(14 + len, (4106 + max) / 2, 2734);
    }
  }

  ghost predicate Sized(t: Tree, len: nat, max: nat) {
    match t
    case Leaf(kvs) => forall i :: 0 <= i < |kvs| ==> EntrySized(kvs[i], len, max)
    case Inner(kids) => forall i :: 0 <= i < |kids| ==> Sized(kids[i], len, max)
  }

  predicate EntrySized(kv: KV, len: nat, max: nat) {
    |kv.key| == len && 4 + len + |kv.val| <= max
  }

  ghost predicate AllSized(kids: seq<Tree>, len: nat, max: nat) {
    forall i :: 0 <= i < |kids| ==> Sized(kids[i], len, max)
  }

  // ---------------------------------------------------------------------------------------
  // Arithmetic of one split.
  // ---------------------------------------------------------------------------------------

  lemma LeftHalfFits(i: nat, a: nat, m: nat, half: nat)
    requires m > 0 && m * i <= a <= half
    requires (10 + m) * half <= 4092 * m
    ensures 4 + 10 * i + a <= PAGE_SIZE
  {
    MulLessEq(10 + m, a, half);
    assert m * (4 + 10 * i + a) == 4 * m + 10 * (m * i) + m * a;
    assert (10 + m) * a == 10 * a + m * a;
    assert m * (4 + 10 * i + a) <= 4096 * m;
    if 4 + 10 * i + a > 4096 {
      MulLessEq(m, 4097, 4 + 10 * i + a);
    }
  }

  lemma MinEntry(m: nat, half: nat)
    requires (10 + m) * half <= 4092 * m && half >= 2053
    ensures m >= 11
  {
    if m <= 10 {
      MulLessEq(10 + m, 2053, half);
    }
  }

  lemma NotOverhead(s: seq<nat>, m: nat)
    requires m >= 11 && forall i :: 0 <= i < |s| ==> m <= s[i] <= 1362
    requires Total(s) > PAGE_SIZE
    ensures !AllOverhead(s)
  {
    SumBounds(s, m, 1362);
    MulLessEq(|s|, 11, m);
    assert Sum(s) >= 11 * |s|;
  }

  /** An oversized node of the discipline splits into two fitting, non-empty halves. */
  lemma SplitTwo(s: seq<nat>, m: nat, max: nat)
    requires m <= max <= 1362 && (10 + m) * ((4106 + max) / 2) <= 4092 * m
    requires forall i :: 0 <= i < |s| ==> m <= s[i] <= max
    requires PAGE_SIZE < Total(s) <= 4106 + max
    ensures s != [] && 1 <= SplitIdx(s) < |s|
    ensures Total(s[..SplitIdx(s)]) <= PAGE_SIZE
    ensures Total(s[SplitIdx(s)..]) <= PAGE_SIZE
  {
    assert s != [];
    var i := SplitIdx(s);
    MinEntry(m, (4106 + max) / 2);
    NotOverhead(s, m);
    RightHalfEmptyIff(s);
    SplitPoint(s);
    SumSplit(s, i);
    SumStep(s, i);
    SumBounds(s[..i], m, max);
    if i > 1 {
      LeftHalfFits(i, Sum(s[..i]), m, (4106 + max) / 2);
    } else {
      assert Sum(s[..1]) == s[0] by { SumStep(s, 0); }
    }
  }

  // ---------------------------------------------------------------------------------------
  // Trees of the discipline.
  // ---------------------------------------------------------------------------------------

  lemma {:induction false} FirstKeySized(t: Tree, len: nat, max: nat)
    requires Full(t) && Sized(t, len, max)
    ensures |FirstKey(t)| == len
  {
    if t.Inner? {
      FirstKeySized(t.kids[0], len, max);
    } else {
      assert EntrySized(t.kvs[0], len, max);
    }
  }

  lemma SizesBounded(t: Tree, len: nat, max: nat)
    requires 4 + len <= max && Sized(t, len, max) && (t.Inner? ==> AllFull(t.kids))
    ensures forall i :: 0 <= i < Count(t) ==> 4 + len <= SizesOf(t)[i] <= max
    ensures t.Inner? ==> forall i :: 0 <= i < Count(t) ==> SizesOf(t)[i] == 4 + len
  {
    forall i | 0 <= i < Count(t)
      ensures 4 + len <= SizesOf(t)[i] <= max && (t.Inner? ==> SizesOf(t)[i] == 4 + len)
    {
      if t.Inner? {
        FirstKeySized(t.kids[i], len, max);
      } else {
        assert EntrySized(t.kvs[i], len, max);
      }
    }
  }

  lemma InnerBytes(kids: seq<Tree>, len: nat, max: nat)
    requires 4 + len <= max && AllSized(kids, len, max) && AllFull(kids)
    ensures NBytes(Inner(kids)) == 4 + (14 + len) * |kids|
  {
    SizesBounded(Inner(kids), len, max);
    SumBounds(SizesOf(Inner(kids)), 4 + len, 4 + len);
  }

  lemma SliceSized(t: Tree, lo: nat, hi: nat, len: nat, max: nat)
    requires lo <= hi <= Count(t) && Sized(t, len, max)
    ensures Sized(Slice(t, lo, hi), len, max)
  {
  }

  lemma HalvesBytes(t: Tree, len: nat, max: nat)
    requires Workable(len, max) && Full(t) && Sized(t, len, max)
    requires PAGE_SIZE < NBytes(t) <= 4106 + max
    ensures NBytes(Halves(t).0) <= PAGE_SIZE && NBytes(Halves(t).1) <= PAGE_SIZE
    ensures !AllOverhead(SizesOf(t))
  {
    var s := SizesOf(t);
    SizesBounded(t, len, max);
    SplitTwo(s, 4 + len, max);
    RightHalfEmptyIff(s);
    HalvesSizes(t);
  }

  lemma HalvesSized(t: Tree, len: nat, max: nat)
    requires Count(t) > 0 && Sized(t, len, max)
    ensures Sized(Halves(t).0, len, max) && Sized(Halves(t).1, len, max)
  {
    SplitPoint(SizesOf(t));
    SliceSized(t, 0, SplitIdx(SizesOf(t)), len, max);
    SliceSized(t, SplitIdx(SizesOf(t)), Count(t), len, max);
  }

  /** Fewer than three pieces, none empty, each fitting: the split of one rebuilt node. */
  lemma SplitSized(t: Tree, len: nat, max: nat)
    requires Workable(len, max) && Full(t) && Sized(t, len, max) && NBytes(t) <= 4106 + max
    ensures |Split3(t)| <= 2 && PiecesFit(t)
    ensures AllSized(Split3(t), len, max)
    ensures |Split3(t)| == 2 <==> NBytes(t) > PAGE_SIZE
  {
    if NBytes(t) > PAGE_SIZE {
      HalvesBytes(t, len, max);
      HalvesSized(t, len, max);
      assert Split3(t) == [Halves(t).0, Halves(t).1];
    }
  }

  lemma SpliceLeaf(kvs: seq<KV>, i: nat, j: nat, kv: KV, len: nat, max: nat)
    requires i <= j <= |kvs| && Sized(Leaf(kvs), len, max) && EntrySized(kv, len, max)
    ensures Sized(Leaf(kvs[..i] + [kv] + kvs[j..]), len, max)
    ensures NBytes(Leaf(kvs[..i] + [kv] + kvs[j..])) <= NBytes(Leaf(kvs)) + 10 + max
  {
    SplicedBytes(kvs, i, j, kv);
    var r := kvs[..i] + [kv] + kvs[j..];
    forall n | 0 <= n < |r| ensures EntrySized(r[n], len, max) {
      assert n > i ==> r[n] == kvs[j + n - i - 1];
    }
  }

  lemma SplicedBytes(kvs: seq<KV>, i: nat, j: nat, kv: KV)
    requires i <= j <= |kvs|
    ensures NBytes(Leaf(kvs[..i] + [kv] + kvs[j..])) <= NBytes(Leaf(kvs)) + 14 + |kv.key| + |kv.val|
  {
    SplicedSizes(kvs, i, j, kv);
    SplicedSum(SizesOf(Leaf(kvs)), i, j, 4 + |kv.key| + |kv.val|);
  }

  lemma SplicedSizes(kvs: seq<KV>, i: nat, j: nat, kv: KV)
    requires i <= j <= |kvs|
    ensures var s := SizesOf(Leaf(kvs));
            SizesOf(Leaf(kvs[..i] + [kv] + kvs[j..])) == s[..i] + [4 + |kv.key| + |kv.val|] + s[j..]
  {
  }

  lemma LeafInsertSized(kvs: seq<KV>, k: seq<byte>, v: seq<byte>, len: nat, max: nat)
    requires Sized(Leaf(kvs), len, max) && EntrySized(KV(k, v), len, max)
    ensures Sized(InsertNode(Leaf(kvs), k, v), len, max)
    ensures NBytes(InsertNode(Leaf(kvs), k, v)) <= NBytes(Leaf(kvs)) + 10 + max
  {
    LeafIs(kvs, k, v);
    SpliceLeaf(kvs, Spot(kvs, k).0, Spot(kvs, k).1, KV(k, v), len, max);
  }

  lemma SplicedSum(s: seq<nat>, i: nat, j: nat, x: nat)
    requires i <= j <= |s|
    ensures Sum(s[..i] + [x] + s[j..]) <= Sum(s) + x
  {
    SumConcat(s[..i] + [x], s[j..]);
    SumConcat(s[..i], [x]);
    SumSplit(s, j);
    SumSplit(s[..j], i);
    assert s[..j][..i] == s[..i];
    assert Sum([x]) == x by { assert [x][..0] == []; }
  }

  lemma SpliceSized(kids: seq<Tree>, i: nat, j: nat, mid: seq<Tree>, len: nat, max: nat)
    requires i <= j <= |kids| && AllSized(kids, len, max) && AllSized(mid, len, max)
    ensures AllSized(kids[..i] + mid + kids[j..], len, max)
  {
    SpliceIndex(kids, i, j, mid);
  }

  lemma OneMoreChild(kids: seq<Tree>, r: seq<Tree>, len: nat, max: nat)
    requires 4 + len <= max && AllSized(kids, len, max) && AllFull(kids)
    requires AllSized(r, len, max) && AllFull(r) && |r| <= |kids| + 1
    ensures NBytes(Inner(r)) <= NBytes(Inner(kids)) + 10 + max
  {
    InnerBytes(kids, len, max);
    InnerBytes(r, len, max);
    MulLessEq(14 + len, |r|, |kids| + 1);
    assert (14 + len) * (|kids| + 1) == (14 + len) * |kids| + 14 + len;
  }

  /** One step of the induction: the parent of a rebuilt child. */
  lemma InnerInsertSized(kids: seq<Tree>, idx: nat, kid: Tree, len: nat, max: nat)
    requires Workable(len, max) && idx < |kids| && AllSized(kids, len, max) && AllFull(kids)
    requires Full(kid) && Sized(kid, len, max) && NBytes(kid) <= 4106 + max
    requires NBytes(Inner(kids)) <= PAGE_SIZE
    ensures var r := Inner(kids[..idx] + Split3(kid) + kids[idx + 1..]);
            && Sized(r, len, max) && Full(r) && NBytes(r) <= 4106 + max
    ensures PiecesFit(kid)
  {
    var pieces := Split3(kid);
    SplitSized(kid, len, max);
    Split3Full(kid);
    SpliceSized(kids, idx, idx + 1, pieces, len, max);
    SpliceFull(kids, idx, idx + 1, pieces);
    OneMoreChild(kids, kids[..idx] + pieces + kids[idx + 1..], len, max);
  }

  lemma {:induction false} InsertNodeSized(t: Tree, k: seq<byte>, v: seq<byte>, len: nat, max: nat)
    requires Workable(len, max) && EntrySized(KV(k, v), len, max)
    requires Full(t) && Fit(t) && Sized(t, len, max)
    ensures Sized(InsertNode(t, k, v), len, max) && Full(InsertNode(t, k, v))
    ensures NBytes(InsertNode(t, k, v)) <= 4106 + max
    ensures InsertFits(t, k, v)
  {
    match t
    case Leaf(kvs) => LeafInsertSized(kvs, k, v, len, max);
    case Inner(kids) =>
      var idx := LookupLE(KeysOf(t), k);
      InsertNodeSized(kids[idx], k, v, len, max);
      InsertedSized(kids, idx, k, v, InsertNode(kids[idx], k, v), len, max);
  }

  lemma InsertedSized(kids: seq<Tree>, idx: nat, k: seq<byte>, v: seq<byte>, kid: Tree, len: nat, max: nat)
    requires Workable(len, max) && AllSized(kids, len, max) && AllFull(kids) && NBytes(Inner(kids)) <= PAGE_SIZE
    requires kids != [] && idx == LookupLE(KeysOf(Inner(kids)), k) && kid == InsertNode(kids[idx], k, v)
    requires Full(kid) && Sized(kid, len, max) && NBytes(kid) <= 4106 + max
    ensures var r := InsertNode(Inner(kids), k, v);
            Sized(r, len, max) && Full(r) && NBytes(r) <= 4106 + max && PiecesFit(kid)
  {
    InnerInsertSized(kids, idx, kid, len, max);
  }

  /** Under the discipline an insertion never overflows a page. */
  lemma InsertSized(t: Tree, k: seq<byte>, v: seq<byte>, len: nat, max: nat)
    requires Workable(len, max) && EntrySized(KV(k, v), len, max)
    requires Full(t) && Fit(t) && Sized(t, len, max)
    ensures InsertRootFits(t, k, v)
    ensures Sized(InsertRoot(t, k, v), len, max)
    ensures |Split3(InsertNode(t, k, v))| <= 2
  {
    var n := InsertNode(t, k, v);
    InsertNodeSized(t, k, v, len, max);
    SplitSized(n, len, max);
    Split3Full(n);
    if |Split3(n)| == 2 {
      InnerBytes(Split3(n), len, max);
    }
  }

  // ---------------------------------------------------------------------------------------
  // Deletion.
  // ---------------------------------------------------------------------------------------

  lemma JoinedSized(left: Tree, right: Tree, len: nat, max: nat)
    requires Sized(left, len, max) && Sized(right, len, max)
    ensures Sized(Joined(left, right), len, max)
  {
  }

  lemma RebuildSized(kids: seq<Tree>, idx: nat, updated: Tree, len: nat, max: nat)
    requires idx < |kids| && AllSized(kids, len, max) && Sized(updated, len, max)
    ensures Sized(Rebuild(kids, idx, updated), len, max)
    ensures Count(Rebuild(kids, idx, updated)) <= |kids|
  {
    match ShouldMerge(kids, idx, updated)
    case MergeLeft =>
      JoinedSized(kids[idx - 1], updated, len, max);
      SpliceSized(kids, idx - 1, idx + 1, [Joined(kids[idx - 1], updated)], len, max);
    case MergeRight =>
      JoinedSized(updated, kids[idx + 1], len, max);
      SpliceSized(kids, idx, idx + 2, [Joined(updated, kids[idx + 1])], len, max);
    case NoMerge => SpliceSized(kids, idx, idx + 1, [updated], len, max);
  }

  lemma RebuildSizedFits(kids: seq<Tree>, idx: nat, updated: Tree, len: nat, max: nat)
    requires 4 + len <= max && idx < |kids| && AllSized(kids, len, max) && Sized(updated, len, max)
    requires AllFull(kids) && SameKind(kids, updated)
    requires Count(updated) == 0 || Full(updated)
    requires NBytes(Inner(kids)) <= PAGE_SIZE
    ensures NBytes(Rebuild(kids, idx, updated)) <= PAGE_SIZE
  {
    var r := Rebuild(kids, idx, updated);
    RebuildSized(kids, idx, updated, len, max);
    RebuildFull(kids, idx, updated);
    assert r.Inner? && AllFull(r.kids);
    InnerBytes(kids, len, max);
    InnerBytes(r.kids, len, max);
    MulLessEq(14 + len, |r.kids|, |kids|);
  }

  lemma {:induction false} DeleteSized(t: Tree, k: seq<byte>, len: nat, max: nat)
    requires Sized(t, len, max)
    ensures DeleteNode(t, k).Some? ==> Sized(DeleteNode(t, k).value, len, max)
  {
    if t.Inner? && DeleteNode(t, k).Some? {
      var idx := LookupLE(KeysOf(t), k);
      DeleteSized(t.kids[idx], k, len, max);
      RebuildSized(t.kids, idx, DeleteNode(t.kids[idx], k).value, len, max);
    }
  }

  lemma DeletedKid(kid: Tree, h: nat, k: seq<byte>, u: Tree, len: nat, max: nat)
    requires Uniform(kid, h) && Full(kid) && Sized(kid, len, max) && DeleteNode(kid, k) == Some(u)
    ensures (u.Leaf? <==> kid.Leaf?) && Sized(u, len, max) && (Count(u) == 0 || Full(u))
  {
    DeleteSized(kid, k, len, max);
    DeleteNodeFull(kid, h, k);
  }

  lemma RebuiltFits(kids: seq<Tree>, h: nat, idx: nat, k: seq<byte>, u: Tree, len: nat, max: nat)
    requires 4 + len <= max && Uniform(Inner(kids), h) && AllFull(kids) && AllSized(kids, len, max)
    requires NBytes(Inner(kids)) <= PAGE_SIZE && idx < |kids| && DeleteNode(kids[idx], k) == Some(u)
    ensures NBytes(Rebuild(kids, idx, u)) <= PAGE_SIZE
  {
    DeletedKid(kids[idx], h - 1, k, u, len, max);
    SameKindAsSiblings(kids, h, idx, u);
    RebuildSizedFits(kids, idx, u, len, max);
  }

  /** Under the discipline no deletion overflows a page. */
  lemma {:induction false} DeleteSizedFits(t: Tree, h: nat, k: seq<byte>, len: nat, max: nat)
    requires 4 + len <= max && Uniform(t, h) && Full(t) && Fit(t) && Sized(t, len, max)
    ensures DeleteFits(t, k)
  {
    if DeleteNode(t, k).Some? {
      var idx := LookupLE(KeysOf(t), k);
      if t.Leaf? {
        LeafDeleteFits(t.kvs, idx);
      } else {
        DeleteSizedFits(t.kids[idx], h - 1, k, len, max);
        RebuiltFits(t.kids, h, idx, k, DeleteNode(t.kids[idx], k).value, len, max);
      }
    }
  }
}
