/** Trees with page numbers: which pages they occupy and what those pages hold. */
module PagedTrees {
  import opened Bytes
  import opened NodeSize
  import opened Nodes
  import opened Trees
  import opened TreeInsert

  datatype PTree = At(ptr: nat, body: Body)

  /** A node with its stored children; it need not have a page of its own yet. */
  datatype Body = BLeaf(kvs: seq<KV>) | BInner(kids: seq<PTree>)

  function Kids(b: Body): seq<PTree> {
    if b.BLeaf? then [] else b.kids
  }

  function Shape(b: Body): Tree {
    match b
    case BLeaf(kvs) => Leaf(kvs)
    case BInner(kids) => Inner(seq(|kids|, i requires 0 <= i < |kids| => Shape(kids[i].body)))
  }

  function Shapes(kids: seq<PTree>): seq<Tree> {
    seq(|kids|, i requires 0 <= i < |kids| => Shape(kids[i].body))
  }

  /** The node that a page holds: children are named by page number and first key. */
  function NodeOf(b: Body): Node {
    match b
    case BLeaf(kvs) => Node(true, seq(|kvs|, i requires 0 <= i < |kvs| => Entry(0, kvs[i].key, kvs[i].val)))
    case BInner(kids) => Node(false, seq(|kids|, i requires 0 <= i < |kids| => KidEntry(kids[i])))
  }

  function KidEntry(p: PTree): Entry {
    Entry(p.ptr, FirstKey(Shape(p.body)), [])
  }

  ghost predicate Stored(pages: map<nat, Node>, p: PTree) {
    && p.ptr in pages && pages[p.ptr] == NodeOf(p.body)
    && (p.body.BInner? ==> forall i :: 0 <= i < |p.body.kids| ==> Stored(pages, p.body.kids[i]))
  }

  ghost predicate StoredAll(pages: map<nat, Node>, kids: seq<PTree>) {
    forall i :: 0 <= i < |kids| ==> Stored(pages, kids[i])
  }

  /** The page numbers of a tree, with multiplicity. */
  ghost function Ptrs(p: PTree): multiset<nat> {
    multiset{p.ptr} + (if p.body.BLeaf? then multiset{} else PtrsAll(p.body.kids))
  }

  ghost function PtrsAll(kids: seq<PTree>): multiset<nat> {
    if kids == [] then multiset{} else Ptrs(kids[0]) + PtrsAll(kids[1..])
  }

  lemma {:induction false} PtrsAllConcat(a: seq<PTree>, b: seq<PTree>)
    ensures PtrsAll(a + b) == PtrsAll(a) + PtrsAll(b)
  {
    if a == [] {
      assert a + b == b;
    } else {
      PtrsAllConcat(a[1..], b);
      TailOfConcat(a, b);
    }
  }

  lemma PtrsAllOne(p: PTree)
    ensures PtrsAll([p]) == Ptrs(p)
  {
    assert [p][1..] == [];
  }

  lemma PtrsAllAround(kids: seq<PTree>, i: nat, j: nat, mid: seq<PTree>)
    requires i <= j <= |kids|
    ensures PtrsAll(kids[..i] + mid + kids[j..]) == PtrsAll(kids[..i]) + PtrsAll(mid) + PtrsAll(kids[j..])
  {
    PtrsAllConcat(kids[..i] + mid, kids[j..]);
    PtrsAllConcat(kids[..i], mid);
  }

  lemma PtrsAllSplit(kids: seq<PTree>, i: nat)
    requires i < |kids|
    ensures PtrsAll(kids) == PtrsAll(kids[..i]) + Ptrs(kids[i]) + PtrsAll(kids[i + 1..])
  {
    Around(kids, i);
    PtrsAllAround(kids, i, i + 1, [kids[i]]);
    PtrsAllOne(kids[i]);
  }

  lemma PtrsKid(kids: seq<PTree>, i: nat)
    requires i < |kids|
    ensures Ptrs(kids[i]) <= PtrsAll(kids)
  {
    PtrsAllSplit(kids, i);
  }

  ghost predicate Agree(pages: map<nat, Node>, pages': map<nat, Node>, on: multiset<nat>) {
    forall p :: p in on && p in pages ==> p in pages' && pages'[p] == pages[p]
  }

  lemma AgreeTrans(a: map<nat, Node>, b: map<nat, Node>, c: map<nat, Node>, on: multiset<nat>)
    requires Agree(a, b, on) && Agree(b, c, on)
    ensures Agree(a, c, on)
  {
  }

  lemma AgreeSub(a: map<nat, Node>, b: map<nat, Node>, on: multiset<nat>, sub: multiset<nat>)
    requires Agree(a, b, on) && sub <= on
    ensures Agree(a, b, sub)
  {
  }

  /** A page number that is not in use is none of the accounted ones. */
  lemma NotAccounted(live: set<nat>, acc: multiset<nat>, ptr: nat)
    requires multiset(live) == acc && ptr !in live
    ensures ptr !in acc
    ensures multiset(live + {ptr}) == acc + multiset{ptr}
  {
    assert multiset(live)[ptr] == 0;
  }

  lemma Accounted(live: set<nat>, acc: multiset<nat>, ptr: nat)
    requires multiset(live) == acc + multiset{ptr}
    ensures ptr in live && multiset(live - {ptr}) == acc
  {
    assert multiset(live)[ptr] == acc[ptr] + 1;
    var r := multiset(live - {ptr});
    forall x: nat ensures r[x] == acc[x] {
      assert multiset(live)[x] == acc[x] + multiset{ptr}[x];
    }
  }

  /** A tree is still stored when none of its pages changed. */
  lemma {:induction false} StoredFrame(pages: map<nat, Node>, pages': map<nat, Node>, p: PTree)
    requires Stored(pages, p) && Agree(pages, pages', Ptrs(p))
    ensures Stored(pages', p)
  {
    if p.body.BInner? {
      forall i | 0 <= i < |p.body.kids| ensures Stored(pages', p.body.kids[i]) {
        PtrsKid(p.body.kids, i);
        StoredFrame(pages, pages', p.body.kids[i]);
      }
    }
  }

  lemma StoredAllFrame(pages: map<nat, Node>, pages': map<nat, Node>, kids: seq<PTree>)
    requires StoredAll(pages, kids) && Agree(pages, pages', PtrsAll(kids))
    ensures StoredAll(pages', kids)
  {
    forall i | 0 <= i < |kids| ensures Stored(pages', kids[i]) {
      PtrsKid(kids, i);
      StoredFrame(pages, pages', kids[i]);
    }
  }

  // ---------------------------------------------------------------------------------------
  // The stored node agrees with the shape: sizes, keys, slices and splits.
  // ---------------------------------------------------------------------------------------

  lemma NodeOfShape(b: Body)
    ensures var es, t := NodeOf(b).entries, Shape(b);
            && |es| == Count(t)
            && EntrySizes(es) == SizesOf(t) && EntryKeys(es) == KeysOf(t)
            && NodeBytes(es) == NBytes(t)
  {
  }

  function SliceBody(b: Body, lo: nat, hi: nat): Body
    requires lo <= hi <= Count(Shape(b))
  {
    if b.BLeaf? then BLeaf(b.kvs[lo..hi]) else BInner(b.kids[lo..hi])
  }

  lemma SliceBodyShape(b: Body, lo: nat, hi: nat)
    requires lo <= hi <= Count(Shape(b))
    ensures Shape(SliceBody(b, lo, hi)) == Slice(Shape(b), lo, hi)
    ensures |NodeOf(b).entries| == Count(Shape(b))
    ensures NodeOf(SliceBody(b, lo, hi)) == SliceOf(NodeOf(b), lo, hi)
  {
  }

  ghost function BodyHalves(b: Body): (Body, Body)
    requires Count(Shape(b)) > 0
  {
    SplitPoint(SizesOf(Shape(b)));
    var i := SplitIdx(SizesOf(Shape(b)));
    (SliceBody(b, 0, i), SliceBody(b, i, Count(Shape(b))))
  }

  lemma BodyHalvesAgree(b: Body)
    requires Count(Shape(b)) > 0
    ensures NodeOf(b).entries != []
    ensures NodeHalves(NodeOf(b)) == (NodeOf(BodyHalves(b).0), NodeOf(BodyHalves(b).1))
    ensures Halves(Shape(b)) == (Shape(BodyHalves(b).0), Shape(BodyHalves(b).1))
  {
    NodeOfShape(b);
    SplitPoint(SizesOf(Shape(b)));
    SliceBodyShape(b, 0, SplitIdx(SizesOf(Shape(b))));
    SliceBodyShape(b, SplitIdx(SizesOf(Shape(b))), Count(Shape(b)));
  }

  lemma SliceBodyKids(b: Body, i: nat)
    requires i <= Count(Shape(b))
    ensures Kids(SliceBody(b, 0, i)) + Kids(SliceBody(b, i, Count(Shape(b)))) == Kids(b)
  {
  }

  lemma BodyHalvesKids(b: Body)
    requires Count(Shape(b)) > 0
    ensures Kids(BodyHalves(b).0) + Kids(BodyHalves(b).1) == Kids(b)
  {
    SplitPoint(SizesOf(Shape(b)));
    SliceBodyKids(b, SplitIdx(SizesOf(Shape(b))));
  }

  ghost function BodySplitLeft(left: Body, right: Body): (r: seq<Body>)
    ensures 2 <= |r| <= 3
  {
    if NBytes(Shape(left)) <= PAGE_SIZE || Count(Shape(left)) == 0 then [left, right]
    else [BodyHalves(left).0, BodyHalves(left).1, right]
  }

  ghost function BodySplit3(b: Body): (r: seq<Body>)
    ensures 1 <= |r| <= 3
  {
    if NBytes(Shape(b)) <= PAGE_SIZE || Count(Shape(b)) == 0 then [b]
    else BodySplitLeft(BodyHalves(b).0, BodyHalves(b).1)
  }

  ghost function AllKids(bs: seq<Body>): seq<PTree> {
    if bs == [] then [] else Kids(bs[0]) + AllKids(bs[1..])
  }

  ghost predicate SameSplit(nodes: seq<Node>, shapes: seq<Tree>, bodies: seq<Body>) {
    && |nodes| == |bodies| == |shapes|
    && forall i :: 0 <= i < |bodies| ==> nodes[i] == NodeOf(bodies[i]) && shapes[i] == Shape(bodies[i])
  }

  lemma BodySplitLeftAgree(left: Body, right: Body)
    ensures SameSplit(NodeSplitLeft(NodeOf(left), NodeOf(right)), SplitLeft(Shape(left), Shape(right)),
                      BodySplitLeft(left, right))
  {
    NodeOfShape(left);
    if Count(Shape(left)) > 0 {
      BodyHalvesAgree(left);
    }
  }

  lemma BodySplit3Agree(b: Body)
    ensures SameSplit(NodeSplit3(NodeOf(b)), Split3(Shape(b)), BodySplit3(b))
  {
    NodeOfShape(b);
    if Count(Shape(b)) > 0 {
      BodyHalvesAgree(b);
      BodySplitLeftAgree(BodyHalves(b).0, BodyHalves(b).1);
    }
  }

  lemma BodySplit3Kids(b: Body)
    ensures AllKids(BodySplit3(b)) == Kids(b)
  {
    var r := BodySplit3(b);
    if |r| == 1 {
      AllKids1(b);
    } else {
      var (left, right) := BodyHalves(b);
      BodyHalvesKids(b);
      if |r| == 2 {
        AllKids2(left, right);
      } else {
        BodyHalvesKids(left);
        AllKids3(BodyHalves(left).0, BodyHalves(left).1, right);
      }
    }
  }

  lemma AllKids1(a: Body)
    ensures AllKids([a]) == Kids(a)
  {
    assert [a][1..] == [];
  }

  lemma AllKids2(a: Body, b: Body)
    ensures AllKids([a, b]) == Kids(a) + Kids(b)
  {
    assert [a, b][1..] == [b];
    AllKids1(b);
  }

  lemma AllKids3(a: Body, b: Body, c: Body)
    ensures AllKids([a, b, c]) == Kids(a) + Kids(b) + Kids(c)
  {
    assert [a, b, c][1..] == [b, c];
    AllKids2(b, c);
  }
}
