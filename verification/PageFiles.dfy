/**
 Pages as byte buffers: a node is laid out in a page, and a lookup that sees nothing but the bytes of
 the pages gives the answer of the tree.
 */
module PageFiles {
  import opened Basics
  import opened Bytes
  import opened Endian
  import opened NodeSize
  import opened Nodes
  import opened NodeLayout
  import opened Trees
  import opened TreeGet
  import opened PagedTrees
  import opened BPlusTree

  type PageFile = map<nat, array<byte>>

  function TagOf(node: Node): nat {
    if node.leaf then LEAF else INTERNAL
  }

  /** These pages of the file hold these nodes. */
  ghost predicate Backs(file: PageFile, pages: map<nat, Node>, on: set<nat>)
    reads file.Values
  {
    forall x :: x in on ==>
      x in file && x in pages && HoldsNode(file[x][..], TagOf(pages[x]), pages[x].entries)
  }

  // ---------------------------------------------------------------------------------------
  // Looking up a key in the bytes.
  // ---------------------------------------------------------------------------------------

  lemma FirstKeysSorted(kids: seq<Tree>, i: nat, j: nat)
    requires i < j < |kids| && AllFull(kids) && Sorted(FlatAll(kids))
    ensures Less(FirstKey(kids[i]), FirstKey(kids[j]))
  {
    var more := kids[i + 1..];
    var a, b, c := FlatAll(kids[..i]), Flat(kids[i]), FlatAll(more);
    FlatAllAround(kids, i);
    SortedParts(a + b, c);
    FullFirst(kids[i]);
    var at := j - i - 1;
    FlatAllAround(more, at);
    FullFirst(more[at]);
    assert (a + b)[|a|] == b[0];
    assert c[|FlatAll(more[..at])|] == Flat(more[at])[0];
  }

  lemma BodyKeysSorted(b: Body)
    requires Full(Shape(b)) && Sorted(Flat(Shape(b)))
    ensures KeysSorted(NodeOf(b).entries)
  {
    if b.BInner? {
      var kids, es := Shapes(b.kids), NodeOf(b).entries;
      forall i, j | 0 <= i < j < |es| ensures Less(es[i].key, es[j].key) {
        assert es[i].key == FirstKey(kids[i]) && es[j].key == FirstKey(kids[j]);
        FirstKeysSorted(kids, i, j);
      }
    }
  }

  lemma KidSorted(b: Body, key: seq<byte>)
    requires b.BInner? && Full(Shape(b)) && Sorted(Flat(Shape(b)))
    ensures var idx := LookupLE(EntryKeys(NodeOf(b).entries), key);
            idx < |b.kids| && Sorted(Flat(Shape(b.kids[idx].body)))
  {
    NodeOfShape(b);
    ChildRange(Shapes(b.kids), LookupLE(KeysOf(Shape(b)), key), key);
  }

  /** Get, on the bytes of the pages: the binary search in each node, down to a leaf. */
  method GetFromFile(file: PageFile, root: nat, key: seq<byte>, ghost pages: map<nat, Node>, ghost p: PTree)
    returns (r: Option<seq<byte>>)
    requires root == p.ptr && Stored(pages, p) && Full(Shape(p.body)) && Sorted(Flat(Shape(p.body)))
    requires Backs(file, pages, set x | x in Ptrs(p))
    ensures r == Find(Flat(Shape(p.body)), key)
  {
    GetCorrect(Shape(p.body), key);
    ghost var q := p;
    var ptr := root;
    assert p.ptr in Ptrs(p);
    while true
      invariant OnTheWay(pages, p, q, key) && Sorted(Flat(Shape(q.body))) && ptr == q.ptr
      decreases q
    {
      var leaf, e := Find1(file[ptr], key, q.body);
      if leaf {
        var c := Compare(key, e.key);
        LessTotal(key, e.key);
        AtLeaf(q.body, key);
        return if c == 0 then Some(e.val) else None;
      }
      FurtherDown(pages, p, q, key);
      KidSorted(q.body, key);
      q := q.body.kids[LookupLE(EntryKeys(NodeOf(q.body).entries), key)];
      ptr := e.ptr;
    }
  }

  /** One node of the descent. */
  method Find1(a: array<byte>, key: seq<byte>, ghost b: Body) returns (leaf: bool, e: Entry)
    requires HoldsNode(a[..], TagOf(NodeOf(b)), NodeOf(b).entries)
    requires Full(Shape(b)) && Sorted(Flat(Shape(b)))
    ensures leaf == b.BLeaf?
    ensures var es := NodeOf(b).entries;
            var idx := LookupLE(EntryKeys(es), key);
            idx < |es| && e == es[idx]
  {
    BodyKeysSorted(b);
    ghost var tag, es := TagOf(NodeOf(b)), NodeOf(b).entries;
    HeaderRead(a[..], tag, |es|, es);
    leaf := BType(a[..]) == LEAF;
    var idx := NodeLayout.Lookup(a, key, tag, es);
    e := ReadEntry(a, idx, tag, es);
  }

  // ---------------------------------------------------------------------------------------
  // Laying out a tree.
  // ---------------------------------------------------------------------------------------

  /** The node can be a page: it fits, and its page numbers have 64 bits. */
  predicate CanLayOut(node: Node) {
    NodeBytes(node.entries) <= PAGE_SIZE && forall i :: 0 <= i < |node.entries| ==> node.entries[i].ptr < MAX64
  }

  /** The bytes of a page: its type is 2 for a leaf and 1 for an inner node. */
  lemma PageFormat(b: seq<byte>, node: Node)
    requires HoldsNode(b, TagOf(node), node.entries)
    ensures var n := |node.entries|;
            && 4 + 10 * n <= |b| && At16(b, 0) == (if node.leaf then 2 else 1) && At16(b, 2) == n
            && forall i :: 0 <= i < n ==> EntryAt(b, n, i, node.entries[i])
  {
    NodeFormat(b, TagOf(node), node.entries);
  }

  method LayOut(node: Node) returns (a: array<byte>)
    requires CanLayOut(node)
    ensures fresh(a) && a.Length == 4096 && HoldsNode(a[..], TagOf(node), node.entries)
  {
    var es := node.entries;
    a := new byte[PAGE_SIZE](_ => 0);
    Start(a, TagOf(node), |es|, es);
    var i := 0;
    while i < |es|
      invariant i <= |es| && Filled(a, TagOf(node), es, i)
    {
      AppendTo(a, i, es[i], TagOf(node), es);
      i := i + 1;
    }
    Complete(a, TagOf(node), es);
  }

  /** A whole node read from its page. */
  method ReadNode(a: array<byte>, ghost node: Node) returns (r: Node)
    requires HoldsNode(a[..], TagOf(node), node.entries)
    ensures r == node
  {
    ghost var es, tag := node.entries, TagOf(node);
    HeaderRead(a[..], tag, |es|, es);
    var leaf, n := BType(a[..]) == LEAF, NKeys(a[..]);
    var entries := [];
    while |entries| < n
      invariant |entries| <= n == |es| && entries == es[..|entries|]
    {
      var e := ReadEntry(a, |entries|, tag, es);
      entries := entries + [e];
    }
    r := Node(leaf, entries);
  }

  /** Every page in `on` gets a buffer. */
  method LayOutAll(pages: map<nat, Node>, on: set<nat>) returns (file: PageFile)
    requires on <= pages.Keys && forall x :: x in on ==> CanLayOut(pages[x])
    ensures (forall x :: x in file ==> fresh(file[x])) && Backs(file, pages, on)
  {
    file := map[];
    var left := on;
    while left != {}
      invariant left <= on && (forall x :: x in file ==> fresh(file[x])) && Backs(file, pages, on - left)
      decreases left
    {
      var x :| x in left;
      var a := LayOut(pages[x]);
      file := file[x := a];
      left := left - {x};
    }
  }

  lemma {:induction false} KidOf(kids: seq<PTree>, x: nat) returns (i: nat)
    requires x in PtrsAll(kids)
    ensures i < |kids| && x in Ptrs(kids[i])
  {
    if x in Ptrs(kids[0]) {
      i := 0;
    } else {
      i := KidOf(kids[1..], x);
      i := i + 1;
    }
  }

  ghost predicate Narrow(p: PTree) {
    forall y :: y in Ptrs(p) ==> y < MAX64
  }

  lemma NarrowKid(p: PTree, i: nat)
    requires Narrow(p) && p.body.BInner? && i < |p.body.kids|
    ensures Narrow(p.body.kids[i])
  {
    var kid := p.body.kids[i];
    PtrsKid(p.body.kids, i);
    forall y | y in Ptrs(kid) ensures y in Ptrs(p) {
      assert 0 < Ptrs(kid)[y] <= PtrsAll(p.body.kids)[y];
    }
  }

  /** Every page of a fitting tree with 64-bit page numbers can be laid out. */
  lemma {:induction false} TreeCanLayOut(pages: map<nat, Node>, p: PTree, x: nat)
    requires Stored(pages, p) && Fit(Shape(p.body)) && x in Ptrs(p) && Narrow(p)
    ensures x in pages && CanLayOut(pages[x])
    decreases p
  {
    if x == p.ptr {
      RootCanLayOut(p);
    } else {
      var i := KidOf(p.body.kids, x);
      NarrowKid(p, i);
      FitShape(p, i);
      TreeCanLayOut(pages, p.body.kids[i], x);
    }
  }

  lemma FitShape(p: PTree, i: nat)
    requires Fit(Shape(p.body)) && p.body.BInner? && i < |p.body.kids|
    ensures Fit(Shape(p.body.kids[i].body))
  {
    assert Shape(p.body).kids[i] == Shape(p.body.kids[i].body);
  }

  lemma RootCanLayOut(p: PTree)
    requires Fit(Shape(p.body)) && Narrow(p)
    ensures CanLayOut(NodeOf(p.body))
  {
    NodeOfShape(p.body);
    if p.body.BInner? {
      forall i | 0 <= i < |p.body.kids| ensures p.body.kids[i].ptr < MAX64 {
        NarrowKid(p, i);
        assert p.body.kids[i].ptr in Ptrs(p.body.kids[i]);
      }
    }
  }

  /** The pages of a tree as bytes, when their numbers have 64 bits. */
  method Save(t: BTree) returns (file: PageFile)
    requires t.Valid() && forall x :: x in t.store.live ==> x < MAX64
    ensures (forall x :: x in file ==> fresh(file[x])) && Backs(file, t.store.pages, t.store.live)
  {
    if t.root != 0 {
      LivePages(t.store.live, t.top.value);
      forall x | x in t.store.live ensures CanLayOut(t.store.pages[x]) {
        TreeCanLayOut(t.store.pages, t.top.value, x);
      }
    }
    file := LayOutAll(t.store.pages, t.store.live);
  }

  lemma LivePages(live: set<nat>, p: PTree)
    requires multiset(live) == Ptrs(p)
    ensures live == set x | x in Ptrs(p)
  {
    forall x ensures x in live <==> x in Ptrs(p) {
      assert x in live <==> x in multiset(live);
    }
  }

  /** Any file that holds the live pages of the tree answers every lookup from the tree's contents. */
  method GetBytes(t: BTree, file: PageFile, key: seq<byte>) returns (r: Option<seq<byte>>)
    requires t.Valid() && Backs(file, t.store.pages, t.store.live)
    ensures r == BPlusTree.Lookup(t.Contents(), key)
  {
    if t.root == 0 {
      return None;
    }
    LivePages(t.store.live, t.top.value);
    r := GetFromFile(file, t.root, key, t.store.pages, t.top.value);
  }
}
