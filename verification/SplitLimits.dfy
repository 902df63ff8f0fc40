/**
 Exactly when splitting works. The split is after the entries before the one that takes the packed
 bytes across half of the node; whether the pieces fit can be read off the sizes of the entries.
 */
module SplitLimits {
  import opened Basics
  import opened Bytes
  import opened NodeSize
  import opened Trees
  import opened TreeInsert

  /** Entry `i` takes the packed bytes across half of the node; the first entry never does. */
  ghost predicate CutsAt(s: seq<nat>, i: nat) {
    && 1 <= i < |s|
    && (i > 1 ==> 2 * Sum(s[..i]) <= Total(s))
    && 2 * Sum(s[..i + 1]) > Total(s)
  }

  /** These entries fit a page beside its header. */
  predicate Page(s: seq<nat>) {
    10 * |s| + Sum(s) <= 4092
  }

  /**
   The entries can be cut so that the pieces fit: some entry crosses half of the node, it and those
   after it fit a page, and those before it fit a page or can be cut once more into two that do.
   */
  ghost predicate Splits(s: seq<nat>) {
    exists i: nat :: CutsAt(s, i) && Page(s[i..]) && (Page(s[..i]) || SplitsOnce(s[..i]))
  }

  ghost predicate SplitsOnce(s: seq<nat>) {
    exists j: nat :: CutsAt(s, j) && Page(s[..j]) && Page(s[j..])
  }

  lemma {:induction false} SumMono(s: seq<nat>, i: nat, j: nat)
    requires i <= j <= |s|
    ensures Sum(s[..i]) <= Sum(s[..j])
  {
    SumSplit(s[..j], i);
    assert s[..j][..i] == s[..i];
  }

  /** There is one crossing entry at most, it is where nodeSplit2 stops, and there is none iff overhead dominates. */
  lemma CutIff(s: seq<nat>, i: nat)
    requires s != []
    ensures CutsAt(s, i) <==> i == SplitIdx(s) < |s|
    ensures SplitIdx(s) < |s| <==> !AllOverhead(s)
  {
    var k := SplitIdx(s);
    SplitPoint(s);
    RightHalfEmptyIff(s);
    assert s[..|s|] == s;
    if 1 <= i < |s| {
      if i < k {
        SumMono(s, i + 1, k);
      } else if k < i {
        SumMono(s, k + 1, i);
      }
    }
  }

  lemma HalvesFitIff(t: Tree)
    requires Count(t) > 0 && NBytes(t) > PAGE_SIZE
    ensures NBytes(Halves(t).0) <= PAGE_SIZE && NBytes(Halves(t).1) <= PAGE_SIZE <==> SplitsOnce(SizesOf(t))
  {
    var s, i := SizesOf(t), SplitIdx(SizesOf(t));
    HalvesSizes(t);
    CutIff(s, i);
    assert i == |s| ==> s[..i] == s;
    forall j: nat | CutsAt(s, j) ensures j == i {
      CutIff(s, j);
    }
    if NBytes(Halves(t).0) <= PAGE_SIZE && NBytes(Halves(t).1) <= PAGE_SIZE {
      assert CutsAt(s, i) && Page(s[..i]) && Page(s[i..]);
    }
  }

  /** An oversized node is split into pieces that fit if and only if its entry sizes allow it. */
  lemma PiecesFitIff(t: Tree)
    requires Count(t) > 0 && NBytes(t) > PAGE_SIZE
    ensures PiecesFit(t) <==> Splits(SizesOf(t))
  {
    var s, i := SizesOf(t), SplitIdx(SizesOf(t));
    var (left, right) := Halves(t);
    HalvesSizes(t);
    CutIff(s, i);
    PiecesOf(t);
    forall j: nat | CutsAt(s, j) ensures j == i {
      CutIff(s, j);
    }
    if NBytes(left) > PAGE_SIZE {
      HalvesFitIff(left);
    }
    if i == |s| {
      assert s[..i] == s;
      OverheadSplits(t);
    } else {
      assert CutsAt(s, i);
      assert SizesOf(right) == s[i..] && SizesOf(left) == s[..i];
    }
  }

  /** The pieces of an oversized node, one by one. */
  lemma PiecesOf(t: Tree)
    requires Count(t) > 0 && NBytes(t) > PAGE_SIZE
    ensures var (left, right) := Halves(t);
            PiecesFit(t) <==> && NBytes(right) <= PAGE_SIZE
                              && (|| NBytes(left) <= PAGE_SIZE
                                  || (&& Count(left) > 0 && NBytes(Halves(left).0) <= PAGE_SIZE
                                      && NBytes(Halves(left).1) <= PAGE_SIZE))
  {
    var (left, right) := Halves(t);
    HalvesSizes(t);
    assert Count(left) == |SizesOf(left)|;
    if NBytes(left) <= PAGE_SIZE {
      EachFits(Split3(t), [left, right]);
    } else {
      EachFits(Split3(t), [Halves(left).0, Halves(left).1, right]);
    }
  }

  lemma EachFits(r: seq<Tree>, s: seq<Tree>)
    requires r == s && 2 <= |s| <= 3
    ensures (forall i :: 0 <= i < |r| ==> NBytes(r[i]) <= PAGE_SIZE)
       <==> NBytes(s[0]) <= PAGE_SIZE && NBytes(s[1]) <= PAGE_SIZE && NBytes(s[|s| - 1]) <= PAGE_SIZE
  {
  }

  lemma OverheadSplits(t: Tree)
    requires Count(t) > 0 && NBytes(t) > PAGE_SIZE && SplitIdx(SizesOf(t)) == |SizesOf(t)|
    ensures !PiecesFit(t)
  {
    RightHalfEmptyIff(SizesOf(t));
    HalvesOfOverhead(t);
    assert Split3(t)[0] == t;
  }

  /** Entries of one size, one entry over a page: the split works if and only if each takes at least 11 bytes. */
  lemma EqualEntriesIff(t: Tree, m: nat)
    requires Count(t) > 1 && NBytes(t) > PAGE_SIZE
    requires forall i :: 0 <= i < Count(t) ==> SizesOf(t)[i] == m
    requires Total(SizesOf(t)[..Count(t) - 1]) <= PAGE_SIZE
    ensures PiecesFit(t) <==> m >= 11
  {
    PiecesFitIff(t);
    EqualSplitsIff(SizesOf(t), m);
  }

  lemma EqualSplitsIff(s: seq<nat>, m: nat)
    requires |s| > 1 && Total(s) > PAGE_SIZE && Total(s[..|s| - 1]) <= PAGE_SIZE
    requires forall i :: 0 <= i < |s| ==> s[i] == m
    ensures Splits(s) <==> m >= 11
  {
    var i, n := SplitIdx(s), |s|;
    CutIff(s, i);
    SumBounds(s, m, m);
    SumBounds(s[..n - 1], m, m);
    if m >= 11 {
      EnoughEntries(m, n);
      EqualCut(s, m, i);
    } else {
      MulLessEq(n, m, 10);
      assert AllOverhead(s);
      assert !Splits(s) by {
        forall j: nat ensures !CutsAt(s, j) {
          CutIff(s, j);
        }
      }
    }
  }

  lemma EqualCut(s: seq<nat>, m: nat, i: nat)
    requires CutsAt(s, i) && Total(s[..|s| - 1]) <= PAGE_SIZE && forall i :: 0 <= i < |s| ==> s[i] == m
    ensures Splits(s)
  {
    var n := |s| - 1;
    SumBounds(s[..n], m, m);
    EqualPage(s[..i], m, n);
    EqualPage(s[i..], m, n);
  }

  lemma EqualPage(s: seq<nat>, m: nat, n: nat)
    requires |s| <= n && 10 * n + m * n <= 4092 && forall i :: 0 <= i < |s| ==> s[i] == m
    ensures Page(s)
  {
    SumBounds(s, m, m);
    MulLessEq(m, |s|, n);
  }

  lemma EnoughEntries(m: nat, n: nat)
    requires m >= 11 && n > 1 && 4 + 10 * n + m * n > 4096
    ensures m * n > 4 + 10 * n
  {
    if n <= 4 {
      MulLessEq(m, n, 4);
      MulLessEq(n, 1000, m);
    } else {
      MulLessEq(n, 11, m);
    }
  }

  // ---------------------------------------------------------------------------------------
  // Tiny entries: overhead dominates.
  // ---------------------------------------------------------------------------------------

  lemma {:induction false} SumSame(s: seq<nat>, x: nat)
    requires forall i :: 0 <= i < |s| ==> s[i] == x
    ensures Sum(s) == x * |s|
  {
    SumBounds(s, x, x);
  }

  function TinyLeaf(n: nat): Tree
    requires n <= 256
  {
    Leaf(seq(n, i requires 0 <= i < n => KV([0, i], [])))
  }

  lemma TinyBytes(t: Tree)
    requires t.Leaf? && forall i :: 0 <= i < |t.kvs| ==> |t.kvs[i].key| == 2 && t.kvs[i].val == []
    ensures Sum(SizesOf(t)) == 6 * Count(t) && NBytes(t) == 4 + 16 * Count(t)
  {
    SumSame(SizesOf(t), 6);
  }

  lemma TinyGood(n: nat)
    requires 0 < n <= 255
    ensures Good(TinyLeaf(n), 0)
  {
    var t := TinyLeaf(n);
    TinyBytes(t);
    forall i, j | 0 <= i < j < n ensures Less(t.kvs[i].key, t.kvs[j].key) {
      assert t.kvs[i].key[1..] == [i] && t.kvs[j].key[1..] == [j];
    }
  }

  lemma TinyLookup(n: nat)
    requires 0 < n <= 255
    ensures LookupLE(KeysOf(TinyLeaf(n)), [1, 0]) == n - 1
  {
    var keys := KeysOf(TinyLeaf(n));
    assert !Less([1, 0], keys[n - 1]);
  }

  /** The 256th two-byte key: the node is too large for a page and no split makes it smaller. */
  lemma TinyEntriesOverflow()
    ensures Good(TinyLeaf(255), 0) && !InsertRootFits(TinyLeaf(255), [1, 0], [])
  {
    var t, k := TinyLeaf(255), [1, 0];
    TinyGood(255);
    TinyLookup(255);
    var n := InsertNode(t, k, []);
    assert n == Leaf(t.kvs + [KV(k, [])]);
    TinyBytes(n);
    OverheadNeverFits(n);
  }

  // ---------------------------------------------------------------------------------------
  // Large entries: the right half of a split can exceed a page.
  // ---------------------------------------------------------------------------------------

  function Zeros(n: nat): seq<byte> {
    seq(n, _ => 0)
  }

  lemma Sum3(a: nat, b: nat, c: nat)
    ensures Sum([a, b, c]) == a + b + c
  {
    assert [a, b, c][..2] == [a, b];
    Sum2(a, b);
  }

  /** Sizes 40, 2040 and 2040: the first entry goes left alone, and the other two are 4104 bytes. */
  lemma LargeEntriesOverflow()
    ensures var t := Leaf([KV([1], Zeros(35)), KV([2], Zeros(2035))]);
            Good(t, 0) && !InsertRootFits(t, [3], Zeros(2035))
  {
    var t := Leaf([KV([1], Zeros(35)), KV([2], Zeros(2035))]);
    assert SizesOf(t) == [40, 2040];
    Sum2(40, 2040);
    var n := InsertNode(t, [3], Zeros(2035));
    assert !Less([3], KeysOf(t)[1]);
    assert n == Leaf(t.kvs + [KV([3], Zeros(2035))]);
    LargeSplit(n);
  }

  lemma LargeSplit(n: Tree)
    requires n.Leaf? && |n.kvs| == 3 && SizesOf(n) == [40, 2040, 2040]
    ensures !PiecesFit(n)
  {
    var s := SizesOf(n);
    Sum3(40, 2040, 2040);
    SplitPoint(s);
    assert s[..1] == [40] && s[..2] == [40, 2040] && s[..3] == s;
    Sum2(40, 2040);
    assert SplitIdx(s) == 1;
    SizesOfSlice(n, 0, 1);
    SizesOfSlice(n, 1, 3);
    assert s[1..3] == [2040, 2040];
    Sum2(2040, 2040);
    var r := Split3(n);
    assert r[|r| - 1] == Slice(n, 1, 3);
  }
}
