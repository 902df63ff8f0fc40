/**
 Exactly when insertion fits, from what is there before it: the lengths of keys and values along the
 descent, and of the key and value inserted. Every node that the insertion rebuilds has sizes that these
 lengths determine, and so have the separators of the pieces that it is split into.
 */
module InsertLimits {
  import opened Basics
  import opened Bytes
  import opened NodeSize
  import opened Trees
  import opened TreeInsert
  import opened SplitLimits

  /** The lengths of an entry's key and value. */
  datatype Dim = Dim(key: nat, val: nat)

  function DimsOf(t: Tree): seq<Dim> {
    seq(Count(t), i requires 0 <= i < Count(t) => Dim(|KeyAt(t, i)|, |ValAt(t, i)|))
  }

  function Sizes(d: seq<Dim>): seq<nat> {
    seq(|d|, i requires 0 <= i < |d| => 4 + d[i].key + d[i].val)
  }

  lemma SizesOfDims(t: Tree)
    ensures Sizes(DimsOf(t)) == SizesOf(t)
  {
  }

  // ---------------------------------------------------------------------------------------
  // The pieces of a node.
  // ---------------------------------------------------------------------------------------

  /** From where to where the pieces go that nodeSplit3 makes of entries of these sizes. */
  function Pieces(s: seq<nat>): (r: seq<(nat, nat)>)
    ensures 1 <= |r| <= 3 && forall j :: 0 <= j < |r| ==> r[j].0 <= r[j].1 <= |s|
  {
    if Total(s) <= PAGE_SIZE || s == [] then [(0, |s|)]
    else
      SplitPoint(s);
      var i := SplitIdx(s);
      if Total(s[..i]) <= PAGE_SIZE then [(0, i), (i, |s|)]
      else
        SplitPoint(s[..i]);
        [(0, SplitIdx(s[..i])), (SplitIdx(s[..i]), i), (i, |s|)]
  }

  /** The parent's entries for the pieces: each has the first key of its piece. */
  function Separators(d: seq<Dim>): (r: seq<Dim>)
    ensures |r| == |Pieces(Sizes(d))|
  {
    var p := Pieces(Sizes(d));
    seq(|p|, j requires 0 <= j < |p| => Dim(if p[j].0 < p[j].1 then d[p[j].0].key else 0, 0))
  }

  lemma SliceSlice(t: Tree, i: nat, lo: nat, hi: nat)
    requires lo <= hi <= i <= Count(t)
    ensures Slice(Slice(t, 0, i), lo, hi) == Slice(t, lo, hi)
  {
    if t.Leaf? {
      assert t.kvs[0..i][lo..hi] == t.kvs[lo..hi];
    } else {
      assert t.kids[0..i][lo..hi] == t.kids[lo..hi];
    }
  }

  lemma WholeSlice(t: Tree)
    ensures Slice(t, 0, Count(t)) == t
  {
  }

  lemma LeftHalves(t: Tree, i: nat)
    requires 0 < i <= Count(t)
    ensures var left, s := Slice(t, 0, i), SizesOf(t)[..i];
            && Count(left) == i == |s| && NBytes(left) == Total(s)
            && var j := SplitIdx(s);
               j <= i && Halves(left) == (Slice(t, 0, j), Slice(t, j, i))
  {
    SizesOfSlice(t, 0, i);
    assert SizesOf(t)[0..i] == SizesOf(t)[..i];
    SplitPoint(SizesOf(t)[..i]);
    var j := SplitIdx(SizesOf(t)[..i]);
    SliceSlice(t, i, 0, j);
    SliceSlice(t, i, j, i);
  }

  /** nodeSplit3 cuts the node into these pieces. */
  lemma PiecesAre(t: Tree, p: seq<(nat, nat)>)
    requires p == Pieces(SizesOf(t))
    ensures |Split3(t)| == |p|
    ensures forall j :: 0 <= j < |p| ==> Split3(t)[j] == Slice(t, p[j].0, p[j].1)
  {
    WholeSlice(t);
    if NBytes(t) > PAGE_SIZE && Count(t) > 0 {
      SplitPoint(SizesOf(t));
      LeftHalves(t, SplitIdx(SizesOf(t)));
    }
  }

  lemma FirstOfSlice(t: Tree, lo: nat, hi: nat)
    requires lo <= hi <= Count(t)
    ensures FirstKey(Slice(t, lo, hi)) == if lo < hi then KeyAt(t, lo) else []
  {
  }

  lemma SeparatorsAre(t: Tree)
    ensures DimsOf(Inner(Split3(t))) == Separators(DimsOf(t))
  {
    var p, r := Pieces(SizesOf(t)), Split3(t);
    SizesOfDims(t);
    PiecesAre(t, p);
    forall j | 0 <= j < |r| ensures DimsOf(Inner(r))[j] == Separators(DimsOf(t))[j] {
      FirstOfSlice(t, p[j].0, p[j].1);
    }
  }

  // ---------------------------------------------------------------------------------------
  // The rebuilt nodes.
  // ---------------------------------------------------------------------------------------

  /** The entries of the node that the insertion rebuilds from `t`, computed before it. */
  function DimsAfter(t: Tree, k: seq<byte>, v: seq<byte>): seq<Dim> {
    var idx, d := LookupLE(KeysOf(t), k), DimsOf(t);
    if t.Leaf? then d[..Spot(t.kvs, k).0] + [Dim(|k|, |v|)] + d[Spot(t.kvs, k).1..]
    else if t.kids == [] then []
    else d[..idx] + Separators(DimsAfter(t.kids[idx], k, v)) + d[idx + 1..]
  }

  lemma LeafSpliceDims(kvs: seq<KV>, i: nat, j: nat, kv: KV)
    requires i <= j <= |kvs|
    ensures DimsOf(Leaf(kvs[..i] + [kv] + kvs[j..]))
         == DimsOf(Leaf(kvs))[..i] + [Dim(|kv.key|, |kv.val|)] + DimsOf(Leaf(kvs))[j..]
  {
  }

  lemma KidSpliceDims(kids: seq<Tree>, i: nat, mid: seq<Tree>)
    requires i < |kids|
    ensures DimsOf(Inner(kids[..i] + mid + kids[i + 1..]))
         == DimsOf(Inner(kids))[..i] + DimsOf(Inner(mid)) + DimsOf(Inner(kids))[i + 1..]
  {
  }

  lemma {:induction false} DimsAfterAre(t: Tree, k: seq<byte>, v: seq<byte>)
    ensures DimsOf(InsertNode(t, k, v)) == DimsAfter(t, k, v)
  {
    var idx := LookupLE(KeysOf(t), k);
    match t
    case Leaf(kvs) => LeafDimsAfter(kvs, k, v);
    case Inner(kids) =>
      if kids != [] {
        DimsAfterAre(kids[idx], k, v);
        InnerDimsAfter(kids, idx, k, v, InsertNode(kids[idx], k, v));
      }
  }

  lemma InnerDimsAfter(kids: seq<Tree>, idx: nat, k: seq<byte>, v: seq<byte>, kid: Tree)
    requires kids != [] && idx == LookupLE(KeysOf(Inner(kids)), k)
    requires kid == InsertNode(kids[idx], k, v) && DimsOf(kid) == DimsAfter(kids[idx], k, v)
    ensures DimsOf(InsertNode(Inner(kids), k, v)) == DimsAfter(Inner(kids), k, v)
  {
    SeparatorsAre(kid);
    InnerIs(kids, idx, k, v, kid);
    KidSpliceDims(kids, idx, Split3(kid));
  }

  lemma InnerIs(kids: seq<Tree>, idx: nat, k: seq<byte>, v: seq<byte>, kid: Tree)
    requires kids != [] && idx == LookupLE(KeysOf(Inner(kids)), k) && kid == InsertNode(kids[idx], k, v)
    ensures InsertNode(Inner(kids), k, v) == Inner(kids[..idx] + Split3(kid) + kids[idx + 1..])
  {
  }

  lemma LeafDimsAfter(kvs: seq<KV>, k: seq<byte>, v: seq<byte>)
    ensures DimsOf(InsertNode(Leaf(kvs), k, v)) == DimsAfter(Leaf(kvs), k, v)
  {
    LeafIs(kvs, k, v);
    LeafSpliceDims(kvs, Spot(kvs, k).0, Spot(kvs, k).1, KV(k, v));
  }

  // ---------------------------------------------------------------------------------------
  // When it fits.
  // ---------------------------------------------------------------------------------------

  /** Entries of these sizes fit a page, or can be split. */
  ghost predicate Storable(s: seq<nat>) {
    Total(s) <= PAGE_SIZE || Splits(s)
  }

  /** Every rebuilt node on the descent fits its buffer of two pages, and can be stored. */
  ghost predicate NodesFit(t: Tree, k: seq<byte>, v: seq<byte>) {
    var s := Sizes(DimsAfter(t, k, v));
    && Total(s) <= 2 * PAGE_SIZE && Storable(s)
    && (t.Inner? && t.kids != [] ==> NodesFit(t.kids[LookupLE(KeysOf(t), k)], k, v))
  }

  /** The size of the new root: above the pieces, or the only piece itself. */
  function RootBytes(d: seq<Dim>): nat {
    if |Separators(d)| > 1 then Total(Sizes(Separators(d))) else Total(Sizes(d))
  }

  lemma StorableIff(t: Tree)
    requires Count(t) > 0
    ensures PiecesFit(t) <==> Storable(SizesOf(t))
  {
    if NBytes(t) > PAGE_SIZE {
      PiecesFitIff(t);
    } else {
      assert Split3(t) == [t];
    }
  }

  lemma InsertNodeCount(t: Tree, k: seq<byte>, v: seq<byte>)
    requires Full(t)
    ensures Count(InsertNode(t, k, v)) > 0
  {
  }

  /** The rebuilt node has the computed size, and is stored if and only if its sizes allow it. */
  lemma RebuiltNode(t: Tree, k: seq<byte>, v: seq<byte>)
    requires Full(t)
    ensures var n, s := InsertNode(t, k, v), Sizes(DimsAfter(t, k, v));
            NBytes(n) == Total(s) && (PiecesFit(n) <==> Storable(s))
  {
    DimsAfterAre(t, k, v);
    SizesOfDims(InsertNode(t, k, v));
    InsertNodeCount(t, k, v);
    StorableIff(InsertNode(t, k, v));
  }

  lemma {:induction false} DescentIff(t: Tree, k: seq<byte>, v: seq<byte>)
    requires Full(t)
    ensures InsertFits(t, k, v) && PiecesFit(InsertNode(t, k, v)) <==> NodesFit(t, k, v)
  {
    RebuiltNode(t, k, v);
    if t.Inner? {
      DescentIff(t.kids[LookupLE(KeysOf(t), k)], k, v);
    }
  }

  lemma RootBytesAre(t: Tree, k: seq<byte>, v: seq<byte>)
    ensures NBytes(InsertRoot(t, k, v)) == RootBytes(DimsAfter(t, k, v))
  {
    var n := InsertNode(t, k, v);
    DimsAfterAre(t, k, v);
    SeparatorsAre(n);
    SizesOfDims(n);
    SizesOfDims(Inner(Split3(n)));
    assert |Split3(n)| == |DimsOf(Inner(Split3(n)))|;
    if |Split3(n)| == 1 {
      PiecesAre(n, Pieces(SizesOf(n)));
      OnePiece(n);
    }
  }

  lemma OnePiece(t: Tree)
    requires |Split3(t)| == 1
    ensures Split3(t) == [t]
  {
  }

  /** An insertion fits if and only if the lengths along its descent, and the root they give, allow it. */
  lemma InsertFitsIff(t: Tree, k: seq<byte>, v: seq<byte>)
    requires Full(t)
    ensures InsertRootFits(t, k, v) <==> NodesFit(t, k, v) && RootBytes(DimsAfter(t, k, v)) <= PAGE_SIZE
  {
    DescentIff(t, k, v);
    RootBytesAre(t, k, v);
  }
}
