/**
 Exactly when deletion fits. A rebuilt parent can be larger than the old one, because deleting the
 first key of a child puts the key after it, which may be longer, into the parent.
 */
module DeleteLimits {
  import opened Basics
  import opened Bytes
  import opened NodeSize
  import opened Trees
  import opened TreeDelete

  // ---------------------------------------------------------------------------------------
  // The size of one rebuilt parent.
  // ---------------------------------------------------------------------------------------

  lemma SplicedSizes(kids: seq<Tree>, i: nat, j: nat, x: Tree)
    requires i <= j <= |kids|
    ensures var s := SizesOf(Inner(kids));
            SizesOf(Inner(kids[..i] + [x] + kids[j..])) == s[..i] + [4 + |FirstKey(x)|] + s[j..]
  {
    var s, r := SizesOf(Inner(kids)), SizesOf(Inner(kids[..i] + [x] + kids[j..]));
    var q := s[..i] + [4 + |FirstKey(x)|] + s[j..];
    forall n | 0 <= n < |r| ensures r[n] == q[n] { }
  }

  lemma SpliceSum(s: seq<nat>, i: nat, j: nat, x: nat)
    requires i <= j <= |s|
    ensures Sum(s[..i] + [x] + s[j..]) == Sum(s) - Sum(s[i..j]) + x
  {
    SumConcat(s[..i] + [x], s[j..]);
    SumConcat(s[..i], [x]);
    SumOne(x);
    SumSplit(s, j);
    SumSplit(s[..j], i);
    assert s[..j][..i] == s[..i] && s[..j][i..] == s[i..j];
  }

  /** Children `i..j` give way to one. */
  lemma SpliceBytes(kids: seq<Tree>, i: nat, j: nat, x: Tree)
    requires i <= j <= |kids|
    ensures NBytes(Inner(kids[..i] + [x] + kids[j..]))
         == NBytes(Inner(kids)) - 10 * (j - i) - Sum(SizesOf(Inner(kids))[i..j]) + 14 + |FirstKey(x)|
  {
    SplicedSizes(kids, i, j, x);
    SpliceSum(SizesOf(Inner(kids)), i, j, 4 + |FirstKey(x)|);
  }

  lemma OneSize(kids: seq<Tree>, i: nat)
    requires i < |kids|
    ensures Sum(SizesOf(Inner(kids))[i..i + 1]) == 4 + |FirstKey(kids[i])|
  {
    assert SizesOf(Inner(kids))[i..i + 1] == [4 + |FirstKey(kids[i])|];
    SumOne(4 + |FirstKey(kids[i])|);
  }

  lemma TwoSizes(kids: seq<Tree>, i: nat)
    requires i + 1 < |kids|
    ensures Sum(SizesOf(Inner(kids))[i..i + 2]) == 8 + |FirstKey(kids[i])| + |FirstKey(kids[i + 1])|
  {
    var s := SizesOf(Inner(kids));
    OneSize(kids, i);
    OneSize(kids, i + 1);
    SumConcat(s[i..i + 1], s[i + 1..i + 2]);
    assert s[i..i + 1] + s[i + 1..i + 2] == s[i..i + 2];
  }

  lemma JoinedFirst(left: Tree, right: Tree)
    requires left.Leaf? <==> right.Leaf?
    ensures FirstKey(Joined(left, right)) == if Count(left) == 0 then FirstKey(right) else FirstKey(left)
  {
  }

  lemma JoinedBytes(kids: seq<Tree>, i: nat, x: Tree)
    requires i + 1 < |kids|
    ensures NBytes(Inner(kids[..i] + [x] + kids[i + 2..]))
         == NBytes(Inner(kids)) - 14 - |FirstKey(kids[i])| - |FirstKey(kids[i + 1])| + |FirstKey(x)|
  {
    SpliceBytes(kids, i, i + 2, x);
    TwoSizes(kids, i);
  }

  lemma MergedLeftBytes(kids: seq<Tree>, idx: nat, u: Tree)
    requires idx < |kids| && AllFull(kids) && SameKind(kids, u) && ShouldMerge(kids, idx, u) == MergeLeft
    ensures NBytes(Rebuild(kids, idx, u)) == NBytes(Inner(kids)) - 14 - |FirstKey(kids[idx])|
  {
    assert Full(kids[idx - 1]);
    JoinedFirst(kids[idx - 1], u);
    JoinedBytes(kids, idx - 1, Joined(kids[idx - 1], u));
  }

  lemma MergedRightBytes(kids: seq<Tree>, idx: nat, u: Tree)
    requires idx < |kids| && SameKind(kids, u) && ShouldMerge(kids, idx, u) == MergeRight
    ensures NBytes(Rebuild(kids, idx, u))
         == NBytes(Inner(kids)) - 14 - |FirstKey(kids[idx])|
            + if Count(u) == 0 then 0 else |FirstKey(u)| - |FirstKey(kids[idx + 1])|
  {
    JoinedFirst(u, kids[idx + 1]);
    JoinedBytes(kids, idx, Joined(u, kids[idx + 1]));
  }

  lemma ReplacedBytes(kids: seq<Tree>, i: nat, x: Tree)
    requires i < |kids|
    ensures NBytes(Inner(kids[..i] + [x] + kids[i + 1..]))
         == NBytes(Inner(kids)) - |FirstKey(kids[i])| + |FirstKey(x)|
  {
    SpliceBytes(kids, i, i + 1, x);
    OneSize(kids, i);
  }

  lemma NoBytes()
    ensures NBytes(Inner([])) == HEADER
  {
    assert SizesOf(Inner([])) == [];
  }

  lemma UnmergedBytes(kids: seq<Tree>, idx: nat, u: Tree)
    requires idx < |kids| && ShouldMerge(kids, idx, u) == NoMerge
    ensures NBytes(Rebuild(kids, idx, u))
         == if Count(u) == 0 then HEADER else NBytes(Inner(kids)) - |FirstKey(kids[idx])| + |FirstKey(u)|
  {
    ReplacedBytes(kids, idx, u);
    NoBytes();
  }

  /**
   The parent's size when child `idx` becomes one whose first key has `next` bytes, or an empty one:
   from the separators that are there before.
   */
  function ParentAfter(kids: seq<Tree>, idx: nat, merge: Merge, gone: bool, next: nat): int
    requires idx < |kids| && (merge == MergeRight ==> idx + 1 < |kids|)
  {
    var before, sep := NBytes(Inner(kids)), |FirstKey(kids[idx])|;
    match merge
    case MergeLeft => before - 14 - sep
    case MergeRight => before - 14 - sep + (if gone then 0 else next - |FirstKey(kids[idx + 1])|)
    case NoMerge => if gone then HEADER else before - sep + next
  }

  /** The rebuilt parent has that size, in each of the three cases. */
  lemma RebuiltParentBytes(kids: seq<Tree>, idx: nat, updated: Tree)
    requires idx < |kids| && AllFull(kids) && SameKind(kids, updated)
    ensures NBytes(Rebuild(kids, idx, updated))
         == ParentAfter(kids, idx, ShouldMerge(kids, idx, updated), Count(updated) == 0, |FirstKey(updated)|)
  {
    match ShouldMerge(kids, idx, updated)
    case MergeLeft => MergedLeftBytes(kids, idx, updated);
    case MergeRight => MergedRightBytes(kids, idx, updated);
    case NoMerge => UnmergedBytes(kids, idx, updated);
  }

  // ---------------------------------------------------------------------------------------
  // Sizes along the descent, before the deletion.
  // ---------------------------------------------------------------------------------------

  /** The first key once `k` is gone. */
  function FirstAfter(s: seq<KV>, k: seq<byte>): seq<byte> {
    if s == [] then [] else if s[0].key != k then s[0].key else if |s| > 1 then s[1].key else []
  }

  /**
   The size of the node that the deletion of a bound key rebuilds from `t`, computed from the sizes
   and separators that are there before.
   */
  function BytesAfter(t: Tree, k: seq<byte>): int {
    var idx := LookupLE(KeysOf(t), k);
    if t.Leaf? then
      if t.kvs == [] then HEADER else NBytes(t) - 10 - SizesOf(t)[idx]
    else if t.kids == [] then HEADER
    else
      var kid := t.kids[idx];
      var merge := MergeWith(t.kids, idx, BytesAfter(kid, k));
      ParentAfter(t.kids, idx, merge, |Flat(kid)| == 1, |FirstAfter(Flat(kid), k)|)
  }

  /** At every inner node on the way down the parent still fits with its new separator. */
  predicate SeparatorsFit(t: Tree, k: seq<byte>) {
    t.Leaf? || t.kids == [] || (BytesAfter(t, k) <= PAGE_SIZE && SeparatorsFit(t.kids[LookupLE(KeysOf(t), k)], k))
  }

  lemma FirstOfDel(s: seq<KV>, k: seq<byte>)
    requires Del(s, k) != s
    ensures Del(s, k) == [] <==> |s| == 1
    ensures Del(s, k) != [] ==> Del(s, k)[0].key == FirstAfter(s, k)
  {
    assert |s| == 1 ==> s[1..] == [];
  }

  /** What is left of a child: nothing exactly when it held one binding, and otherwise its first key. */
  lemma KidAfter(kid: Tree, h: nat, k: seq<byte>, u: Tree)
    requires Good(kid, h) && DeleteNode(kid, k) == Some(u)
    ensures Count(u) == 0 <==> |Flat(kid)| == 1
    ensures Count(u) > 0 ==> FirstKey(u) == FirstAfter(Flat(kid), k)
  {
    DeleteNodeFlat(kid, h, k);
    DeleteNodeFull(kid, h, k);
    FirstOfDel(Flat(kid), k);
    if Count(u) > 0 {
      FullFirst(u);
    } else {
      EmptyFlat(u);
    }
  }

  lemma LeafSizes(kvs: seq<KV>, i: nat)
    requires i < |kvs|
    ensures SizesOf(Leaf(kvs[..i] + kvs[i + 1..])) == SizesOf(Leaf(kvs))[..i] + SizesOf(Leaf(kvs))[i + 1..]
  {
  }

  lemma DroppedSum(s: seq<nat>, i: nat)
    requires i < |s|
    ensures Sum(s[..i] + s[i + 1..]) == Sum(s) - s[i]
  {
    SumConcat(s[..i], s[i + 1..]);
    SumSplit(s, i + 1);
    SumStep(s, i);
  }

  lemma LeafBytes(kvs: seq<KV>, i: nat)
    requires i < |kvs|
    ensures NBytes(Leaf(kvs[..i] + kvs[i + 1..])) == NBytes(Leaf(kvs)) - 10 - SizesOf(Leaf(kvs))[i]
  {
    LeafSizes(kvs, i);
    DroppedSum(SizesOf(Leaf(kvs)), i);
  }

  lemma {:induction false} BytesAfterIs(t: Tree, h: nat, k: seq<byte>, u: Tree)
    requires Good(t, h) && DeleteNode(t, k) == Some(u)
    ensures NBytes(u) == BytesAfter(t, k)
  {
    var idx := LookupLE(KeysOf(t), k);
    match t
    case Leaf(kvs) => LeafBytes(kvs, idx);
    case Inner(kids) =>
      var kid := kids[idx];
      GoodKid(kids, h, idx, k);
      var updated := DeleteNode(kid, k).value;
      BytesAfterIs(kid, h - 1, k, updated);
      ParentBytes(kids, h, idx, k, updated);
  }

  lemma ParentBytes(kids: seq<Tree>, h: nat, idx: nat, k: seq<byte>, updated: Tree)
    requires Good(Inner(kids), h) && idx == LookupLE(KeysOf(Inner(kids)), k)
    requires DeleteNode(kids[idx], k) == Some(updated) && NBytes(updated) == BytesAfter(kids[idx], k)
    ensures NBytes(Rebuild(kids, idx, updated)) == BytesAfter(Inner(kids), k)
  {
    GoodKid(kids, h, idx, k);
    KidAfter(kids[idx], h - 1, k, updated);
    DeleteNodeUniform(kids[idx], h - 1, k);
    UniformKinds(kids, h, updated);
    RebuiltParentBytes(kids, idx, updated);
  }

  /** A bound key's deletion fits if and only if the new separators fit, all the way down. */
  lemma {:induction false} DeleteFitsIff(t: Tree, h: nat, k: seq<byte>)
    requires Good(t, h) && DeleteNode(t, k).Some?
    ensures DeleteFits(t, k) <==> SeparatorsFit(t, k)
  {
    match t
    case Leaf(kvs) => BytesAfterIs(t, h, k, DeleteNode(t, k).value);
    case Inner(kids) =>
      var idx := LookupLE(KeysOf(t), k);
      GoodKid(kids, h, idx, k);
      DeleteFitsIff(kids[idx], h - 1, k);
      ParentFitsIff(kids, h, idx, k, DeleteNode(kids[idx], k).value);
  }

  lemma ParentFitsIff(kids: seq<Tree>, h: nat, idx: nat, k: seq<byte>, updated: Tree)
    requires Good(Inner(kids), h) && idx == LookupLE(KeysOf(Inner(kids)), k)
    requires DeleteNode(kids[idx], k) == Some(updated)
    ensures DeleteFits(Inner(kids), k) <==> BytesAfter(Inner(kids), k) <= PAGE_SIZE && DeleteFits(kids[idx], k)
  {
    BytesAfterIs(Inner(kids), h, k, Rebuild(kids, idx, updated));
  }

  /** The key after `k`, if there is one, is not longer. */
  ghost predicate NextNotLonger(s: seq<KV>, k: seq<byte>) {
    forall i :: 0 <= i < |s| - 1 && s[i].key == k ==> |s[i + 1].key| <= |k|
  }

  lemma NextInPart(a: seq<KV>, b: seq<KV>, c: seq<KV>, k: seq<byte>)
    requires NextNotLonger(a + b + c, k)
    ensures NextNotLonger(b, k)
  {
    var s := a + b + c;
    forall i | 0 <= i < |b| - 1 && b[i].key == k ensures |b[i + 1].key| <= |k| {
      assert s[|a| + i] == b[i] && s[|a| + i + 1] == b[i + 1];
    }
  }

  lemma {:induction false} NotLongerFits(t: Tree, h: nat, k: seq<byte>)
    requires Good(t, h) && NextNotLonger(Flat(t), k)
    ensures SeparatorsFit(t, k)
  {
    match t
    case Leaf(_) =>
    case Inner(kids) =>
      var idx := LookupLE(KeysOf(t), k);
      GoodKid(kids, h, idx, k);
      FlatAllAround(kids, idx);
      NextInPart(FlatAll(kids[..idx]), Flat(kids[idx]), FlatAll(kids[idx + 1..]), k);
      NotLongerFits(kids[idx], h - 1, k);
      FullFirst(kids[idx]);
      assert |FirstAfter(Flat(kids[idx]), k)| <= |FirstKey(kids[idx])|;
  }

  /** Deletion can only overflow when the key after the deleted one is longer. */
  lemma OnlyLongerKeysOverflow(t: Tree, h: nat, k: seq<byte>)
    requires Good(t, h) && NextNotLonger(Flat(t), k)
    ensures DeleteFits(t, k)
  {
    if DeleteNode(t, k).Some? {
      NotLongerFits(t, h, k);
      DeleteFitsIff(t, h, k);
    }
  }

  // ---------------------------------------------------------------------------------------
  // Two trees on which it does not fit. Keys may have 1000 bytes (node.go:11).
  // ---------------------------------------------------------------------------------------

  /** A key of 1000 bytes. */
  function LongKey(b: byte): (k: seq<byte>)
    ensures |k| == 1000 && k[0] == b
  {
    [b] + seq(999, _ => 0)
  }

  function One(k: seq<byte>): Tree {
    Leaf([KV(k, [])])
  }

  function FirstLeaf(v: seq<byte>): Tree {
    Leaf([KV([0], []), KV(LongKey(1), v)])
  }

  /** A child that begins with a short and then a long key, some children, and four with long first keys. */
  function Wide(v: seq<byte>, mid: seq<Tree>): Tree {
    Inner([FirstLeaf(v)] + mid + [One(LongKey(3)), One(LongKey(4)), One(LongKey(5)), One(LongKey(6))])
  }

  lemma OneBytes(k: seq<byte>)
    ensures NBytes(One(k)) == 18 + |k|
  {
    assert SizesOf(One(k)) == [4 + |k|];
    SumOne(4 + |k|);
  }

  lemma FirstLeafBytes(v: seq<byte>)
    ensures SizesOf(FirstLeaf(v)) == [5, 1004 + |v|] && NBytes(FirstLeaf(v)) == 1033 + |v|
  {
    assert SizesOf(FirstLeaf(v)) == [5, 1004 + |v|];
    Sum2(5, 1004 + |v|);
  }

  lemma FourLong(s: seq<nat>)
    requires s == [1004, 1004, 1004, 1004]
    ensures Sum(s) == 4016
  {
    SumBounds(s, 1004, 1004);
  }

  /** Without or with one child whose key is [2]. */
  predicate Middle(mid: seq<Tree>) {
    mid == [] || mid == [One([2])]
  }

  lemma WideBytes(v: seq<byte>, mid: seq<Tree>)
    requires Middle(mid)
    ensures NBytes(Wide(v, mid)) == if mid == [] then 4075 else 4090
  {
    var head, tail := if mid == [] then [5] else [5, 5], [1004, 1004, 1004, 1004];
    assert SizesOf(Wide(v, mid)) == head + tail;
    SumConcat(head, tail);
    SumOne(5);
    Sum2(5, 5);
    FourLong(tail);
  }

  lemma FlatLong()
    ensures FlatAll([One(LongKey(3)), One(LongKey(4)), One(LongKey(5)), One(LongKey(6))])
         == [KV(LongKey(3), []), KV(LongKey(4), []), KV(LongKey(5), []), KV(LongKey(6), [])]
  {
    var a, b, c, d := One(LongKey(3)), One(LongKey(4)), One(LongKey(5)), One(LongKey(6));
    FlatAllTwo(a, b);
    FlatAllTwo(c, d);
    FlatAllConcat([a, b], [c, d]);
    assert [a, b] + [c, d] == [a, b, c, d];
  }

  lemma FlatWide(v: seq<byte>, mid: seq<Tree>)
    requires Middle(mid)
    ensures Flat(Wide(v, mid))
         == [KV([0], []), KV(LongKey(1), v)] + (if mid == [] then [] else [KV([2], [])])
            + [KV(LongKey(3), []), KV(LongKey(4), []), KV(LongKey(5), []), KV(LongKey(6), [])]
  {
    var tail := [One(LongKey(3)), One(LongKey(4)), One(LongKey(5)), One(LongKey(6))];
    FlatLong();
    FlatAllConcat([FirstLeaf(v)] + mid, tail);
    FlatAllConcat([FirstLeaf(v)], mid);
    FlatAllOne(FirstLeaf(v));
    if mid != [] {
      FlatAllOne(One([2]));
    }
  }

  lemma FirstByteOrder(s: seq<KV>)
    requires forall i :: 0 <= i < |s| ==> s[i].key != []
    requires forall i, j :: 0 <= i < j < |s| ==> s[i].key[0] < s[j].key[0]
    ensures Sorted(s)
  {
  }

  lemma WideSorted(v: seq<byte>, mid: seq<Tree>)
    requires Middle(mid)
    ensures Sorted(Flat(Wide(v, mid)))
  {
    FlatWide(v, mid);
    FirstByteOrder(Flat(Wide(v, mid)));
  }

  lemma OneOk(k: seq<byte>)
    requires |k| <= 1000
    ensures Uniform(One(k), 0) && Full(One(k)) && Fit(One(k))
  {
    OneBytes(k);
  }

  lemma WideGood(v: seq<byte>, mid: seq<Tree>)
    requires Middle(mid) && |v| <= 100
    ensures Good(Wide(v, mid), 1)
  {
    var t := Wide(v, mid);
    WideSorted(v, mid);
    WideBytes(v, mid);
    FirstLeafBytes(v);
    OneOk([2]);
    forall i | 0 <= i < |t.kids| ensures Uniform(t.kids[i], 0) && Full(t.kids[i]) && Fit(t.kids[i]) {
      if i >= 1 + |mid| {
        OneOk(LongKey(i - |mid| + 2));
      }
    }
  }

  lemma WideLookup(v: seq<byte>, mid: seq<Tree>)
    requires Middle(mid)
    ensures LookupLE(KeysOf(Wide(v, mid)), [0]) == 0 && LookupLE(KeysOf(FirstLeaf(v)), [0]) == 0
    ensures DeleteNode(Wide(v, mid), [0]).Some?
  {
    var keys := KeysOf(Wide(v, mid));
    assert forall j :: 0 < j < |keys| ==> keys[j] != [] && keys[j][0] > 0;
    assert KeysOf(FirstLeaf(v))[1] == LongKey(1);
  }

  /** What is left of the first child. */
  function Rest(v: seq<byte>): Tree {
    Leaf([KV(LongKey(1), v)])
  }

  lemma FirstLeafDeleted(v: seq<byte>)
    ensures DeleteNode(FirstLeaf(v), [0]) == Some(Rest(v)) && NBytes(Rest(v)) == 1018 + |v|
  {
    assert KeysOf(FirstLeaf(v))[1] == LongKey(1);
    assert FirstLeaf(v).kvs[..0] + FirstLeaf(v).kvs[1..] == Rest(v).kvs;
    assert SizesOf(Rest(v)) == [1004 + |v|];
    SumOne(1004 + |v|);
  }

  /** An unmerged child: deleting [0] takes the parent from 4075 to 5074 bytes. */
  lemma UnmergedChildOverflows()
    ensures var v := seq(100, _ => 0);
            var t := Wide(v, []);
            && Good(t, 1) && !DeleteFits(t, [0])
            && DeleteNode(t.kids[0], [0]) == Some(Rest(v)) && ShouldMerge(t.kids, 0, Rest(v)) == NoMerge
  {
    var v := seq(100, _ => 0 as byte);
    Overflow(v, []);
    FirstLeafDeleted(v);
  }

  /** A child that merges with its right neighbour: deleting [0] takes the parent from 4090 to 5074 bytes. */
  lemma MergedChildOverflows()
    ensures var t := Wide([], [One([2])]);
            && Good(t, 1) && !DeleteFits(t, [0])
            && DeleteNode(t.kids[0], [0]) == Some(Rest([])) && ShouldMerge(t.kids, 0, Rest([])) == MergeRight
  {
    Overflow([], [One([2])]);
    FirstLeafDeleted([]);
    OneBytes([2]);
  }

  lemma Overflow(v: seq<byte>, mid: seq<Tree>)
    requires Middle(mid) && |v| == (if mid == [] then 100 else 0)
    ensures Good(Wide(v, mid), 1) && !DeleteFits(Wide(v, mid), [0])
  {
    var t := Wide(v, mid);
    WideGood(v, mid);
    WideLookup(v, mid);
    WideBytes(v, mid);
    OneBytes([2]);
    FirstLeafAfter(v);
    DeleteFitsIff(t, 1, [0]);
  }

  lemma FirstLeafAfter(v: seq<byte>)
    ensures BytesAfter(FirstLeaf(v), [0]) == 1018 + |v|
    ensures |Flat(FirstLeaf(v))| == 2 && FirstAfter(Flat(FirstLeaf(v)), [0]) == LongKey(1)
  {
    FirstLeafBytes(v);
    assert KeysOf(FirstLeaf(v))[1] == LongKey(1);
  }
}
