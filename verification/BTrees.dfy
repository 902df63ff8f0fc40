/**
 The B+tree on its page store: treeInsert and treeDelete as they read, allocate and free pages.
 Each is proved against the tree functions, with exact page accounting and a frame that
 leaves every other live page and every pinned page alone.
 */
module BTrees {
  import opened Basics
  import opened Bytes
  import opened NodeSize
  import opened Nodes
  import opened Trees
  import opened TreeInsert
  import opened TreeDelete
  import opened PagedTrees
  import opened PageStores

  function NodeFirstKey(n: Node): seq<byte> {
    if n.entries == [] then [] else n.entries[0].key
  }

  lemma NodeFirstKeyAgrees(b: Body)
    ensures NodeFirstKey(NodeOf(b)) == FirstKey(Shape(b))
  {
  }

  /** NewPage for a node whose children are stored. */
  method AllocOne(store: PageStore, node: Node, ghost body: Body, ghost rest: multiset<nat>)
    returns (ptr: nat)
    requires store.Valid() && node == NodeOf(body) && NodeBytes(node.entries) <= PAGE_SIZE
    requires StoredAll(store.pages, Kids(body))
    requires multiset(store.live) == rest + PtrsAll(Kids(body))
    modifies store`pages, store`live
    ensures store.Valid() && Stored(store.pages, At(ptr, body))
    ensures multiset(store.live) == rest + Ptrs(At(ptr, body))
    ensures Agree(old(store.pages), store.pages, rest + multiset(store.pinned))
  {
    ghost var acc := rest + PtrsAll(Kids(body));
    ptr := store.NewPage(node);
    NotAccounted(old(store.live), acc, ptr);
    assert Agree(old(store.pages), store.pages, acc + multiset(store.pinned));
    AgreeSub(old(store.pages), store.pages, acc + multiset(store.pinned), PtrsAll(Kids(body)));
    StoredAllFrame(old(store.pages), store.pages, Kids(body));
  }

  /** What the pages and the page accounting look like after allocating pages for `kids`. */
  ghost predicate Placed(store: PageStore, kids: seq<PTree>, todo: seq<PTree>, rest: multiset<nat>)
    reads store
  {
    && store.Valid() && StoredAll(store.pages, kids) && StoredAll(store.pages, todo)
    && multiset(store.live) == rest + PtrsAll(kids) + PtrsAll(todo)
  }

  /** One round of the allocation loop. */
  method AllocNext(store: PageStore, node: Node, ghost body: Body, ghost kids: seq<PTree>,
                   ghost todo: seq<PTree>, ghost rest: multiset<nat>)
    returns (ptr: nat)
    requires node == NodeOf(body) && NodeBytes(node.entries) <= PAGE_SIZE
    requires Placed(store, kids, Kids(body) + todo, rest)
    modifies store`pages, store`live
    ensures Placed(store, kids + [At(ptr, body)], todo, rest)
    ensures Agree(old(store.pages), store.pages, rest + multiset(store.pinned))
  {
    ghost var before := store.pages;
    ghost var mine := Kids(body);
    ghost var others := rest + PtrsAll(kids) + PtrsAll(todo);
    PtrsAllConcat(mine, todo);
    StoredParts(store.pages, mine, todo);
    ptr := AllocOne(store, node, body, others);
    ExtendPlaced(before, store.pages, kids, todo, At(ptr, body), rest, multiset(store.pinned));
  }

  lemma ExtendPlaced(before: map<nat, Node>, after: map<nat, Node>, kids: seq<PTree>, todo: seq<PTree>,
                     p: PTree, rest: multiset<nat>, pinned: multiset<nat>)
    requires StoredAll(before, kids) && StoredAll(before, todo) && Stored(after, p)
    requires Agree(before, after, rest + PtrsAll(kids) + PtrsAll(todo) + pinned)
    ensures StoredAll(after, kids + [p]) && StoredAll(after, todo)
    ensures PtrsAll(kids + [p]) == PtrsAll(kids) + Ptrs(p)
    ensures Agree(before, after, rest + pinned)
  {
    AgreeParts(before, after, rest, PtrsAll(kids), PtrsAll(todo), pinned);
    StoredAllFrame(before, after, kids);
    StoredAllFrame(before, after, todo);
    PtrsAllConcat(kids, [p]);
    PtrsAllOne(p);
    StoredParts(after, kids, [p]);
  }

  lemma AgreeParts(before: map<nat, Node>, after: map<nat, Node>, a: multiset<nat>, b: multiset<nat>, c: multiset<nat>,
                   d: multiset<nat>)
    requires Agree(before, after, a + b + c + d)
    ensures Agree(before, after, b) && Agree(before, after, c) && Agree(before, after, a + d)
  {
  }

  /** Each body has its page and the entry that the parent keeps for it. */
  ghost predicate AllocatedAs(entries: seq<Entry>, kids: seq<PTree>, bodies: seq<Body>) {
    && |entries| == |kids| == |bodies|
    && forall i :: 0 <= i < |kids| ==> kids[i].body == bodies[i] && entries[i] == KidEntry(kids[i])
  }

  lemma AllocatedNext(entries: seq<Entry>, kids: seq<PTree>, bodies: seq<Body>, i: nat, node: Node, ptr: nat)
    requires i < |bodies| && AllocatedAs(entries, kids, bodies[..i]) && node == NodeOf(bodies[i])
    ensures AllocatedAs(entries + [Entry(ptr, NodeFirstKey(node), [])], kids + [At(ptr, bodies[i])], bodies[..i + 1])
  {
    NodeFirstKeyAgrees(bodies[i]);
  }

  /** The allocation loop of nodeReplaceKidN and Insert: one page and one entry per piece. */
  method AllocAll(store: PageStore, nodes: seq<Node>, ghost bodies: seq<Body>, ghost rest: multiset<nat>)
    returns (entries: seq<Entry>, ghost kids: seq<PTree>)
    requires |nodes| == |bodies|
    requires forall i :: 0 <= i < |nodes| ==> nodes[i] == NodeOf(bodies[i]) && NodeBytes(nodes[i].entries) <= PAGE_SIZE
    requires Placed(store, [], AllKids(bodies), rest)
    modifies store`pages, store`live
    ensures Placed(store, kids, [], rest)
    ensures AllocatedAs(entries, kids, bodies)
    ensures Agree(old(store.pages), store.pages, rest + multiset(store.pinned))
  {
    entries, kids := [], [];
    var i := 0;
    assert bodies[0..] == bodies;
    while i < |nodes|
      invariant i <= |nodes| && AllocatedAs(entries, kids, bodies[..i])
      invariant Placed(store, kids, AllKids(bodies[i..]), rest)
      invariant Agree(old(store.pages), store.pages, rest + multiset(store.pinned))
    {
      ghost var before := store.pages;
      assert bodies[i..][0] == bodies[i] && bodies[i..][1..] == bodies[i + 1..];
      var ptr := AllocNext(store, nodes[i], bodies[i], kids, AllKids(bodies[i + 1..]), rest);
      AgreeTrans(old(store.pages), before, store.pages, rest + multiset(store.pinned));
      AllocatedNext(entries, kids, bodies, i, nodes[i], ptr);
      entries := entries + [Entry(ptr, NodeFirstKey(nodes[i]), [])];
      kids := kids + [At(ptr, bodies[i])];
      i := i + 1;
    }
    assert bodies[i..] == [] && bodies[..i] == bodies;
  }

  lemma StoredParts(pages: map<nat, Node>, a: seq<PTree>, b: seq<PTree>)
    ensures StoredAll(pages, a + b) <==> StoredAll(pages, a) && StoredAll(pages, b)
  {
    assert forall i :: 0 <= i < |a| ==> (a + b)[i] == a[i];
    assert forall i :: 0 <= i < |b| ==> (a + b)[|a| + i] == b[i];
  }

  // ---------------------------------------------------------------------------------------
  // Insertion.
  // ---------------------------------------------------------------------------------------

  function InsertIntoLeaf(es: seq<Entry>, key: seq<byte>, val: seq<byte>): seq<Entry> {
    var idx := LookupLE(EntryKeys(es), key);
    if es != [] && es[idx].key == key then LeafUpdated(es, idx, key, val)
    else LeafInserted(es, if es != [] && Less(es[idx].key, key) then idx + 1 else idx, key, val)
  }

  lemma LeafSpliced(kvs: seq<KV>, i: nat, j: nat, kv: KV)
    requires i <= j <= |kvs|
    ensures var es := NodeOf(BLeaf(kvs)).entries;
            && |es| == |kvs|
            && NodeOf(BLeaf(kvs[..i] + [kv] + kvs[j..])).entries == es[..i] + [Entry(0, kv.key, kv.val)] + es[j..]
  {
  }

  lemma InsertIntoLeafAgrees(kvs: seq<KV>, key: seq<byte>, val: seq<byte>)
    ensures Node(true, InsertIntoLeaf(NodeOf(BLeaf(kvs)).entries, key, val))
         == NodeOf(BLeaf(InsertNode(Leaf(kvs), key, val).kvs))
  {
    NodeOfShape(BLeaf(kvs));
    var idx := LookupLE(KeysOf(Leaf(kvs)), key);
    if kvs != [] && kvs[idx].key == key {
      LeafSpliced(kvs, idx, idx + 1, KV(key, val));
    } else {
      var at := if kvs != [] && Less(kvs[idx].key, key) then idx + 1 else idx;
      LeafSpliced(kvs, at, at, KV(key, val));
    }
  }

  /** The children of a node when the subtree at `idx` has been taken out and its page freed. */
  lemma TakeOut(kids: seq<PTree>, idx: nat, rest: multiset<nat>)
    requires idx < |kids|
    ensures var others := rest + PtrsAll(kids[..idx]) + PtrsAll(kids[idx + 1..]);
            rest + PtrsAll(kids) == others + PtrsAll(Kids(kids[idx].body)) + multiset{kids[idx].ptr}
  {
    PtrsAllSplit(kids, idx);
  }

  /** Every page that an operation must not touch is as before. */
  ghost predicate Kept(before: map<nat, Node>, store: PageStore, rest: multiset<nat>)
    reads store
  {
    Agree(before, store.pages, rest + multiset(store.pinned))
  }

  /** Children outside `i..j` are stored, pieces to be placed there have stored children. */
  ghost predicate Open(store: PageStore, kids: seq<PTree>, i: nat, j: nat, inner: seq<PTree>, rest: multiset<nat>)
    requires i <= j <= |kids|
    reads store
  {
    && store.Valid()
    && StoredAll(store.pages, kids[..i]) && StoredAll(store.pages, kids[j..]) && StoredAll(store.pages, inner)
    && multiset(store.live) == rest + PtrsAll(kids[..i]) + PtrsAll(kids[j..]) + PtrsAll(inner)
  }

  function BodyShapes(bodies: seq<Body>): seq<Tree> {
    seq(|bodies|, i requires 0 <= i < |bodies| => Shape(bodies[i]))
  }

  /** The rebuilt parent node agrees with the rebuilt parent shape. */
  lemma ReplaceKidsAgrees(kids: seq<PTree>, i: nat, j: nat, mid: seq<PTree>, bodies: seq<Body>, entries: seq<Entry>)
    requires i <= j <= |kids| && |entries| == |mid| == |bodies|
    requires forall n :: 0 <= n < |mid| ==> mid[n].body == bodies[n] && entries[n] == KidEntry(mid[n])
    ensures var r := BInner(kids[..i] + mid + kids[j..]);
            var es := NodeOf(BInner(kids)).entries;
            && |es| == |kids|
            && NodeOf(r) == Node(false, es[..i] + entries + es[j..])
            && Shape(r) == Inner(Shapes(kids)[..i] + BodyShapes(bodies) + Shapes(kids)[j..])
  {
    var r := kids[..i] + mid + kids[j..];
    ShapeIsShapes(r);
    assert Shapes(r) == Shapes(kids)[..i] + BodyShapes(bodies) + Shapes(kids)[j..];
  }

  /** nodeReplaceKidN and nodeReplace2Kid: pages for the pieces, and the parent around them. */
  method ReplaceKids(store: PageStore, es: seq<Entry>, ghost kids: seq<PTree>, i: nat, j: nat,
                     nodes: seq<Node>, ghost bodies: seq<Body>, ghost rest: multiset<nat>)
    returns (r: seq<Entry>, ghost kids': seq<PTree>)
    requires es == NodeOf(BInner(kids)).entries && i <= j <= |kids| && |nodes| == |bodies|
    requires forall n :: 0 <= n < |nodes| ==> nodes[n] == NodeOf(bodies[n]) && NodeBytes(nodes[n].entries) <= PAGE_SIZE
    requires Open(store, kids, i, j, AllKids(bodies), rest)
    modifies store`pages, store`live
    ensures Node(false, r) == NodeOf(BInner(kids'))
    ensures Shape(BInner(kids')) == Inner(Shapes(kids)[..i] + BodyShapes(bodies) + Shapes(kids)[j..])
    ensures Placed(store, [], kids', rest) && Kept(old(store.pages), store, rest)
  {
    ghost var before := store.pages;
    ghost var a, c := kids[..i], kids[j..];
    ghost var others := rest + PtrsAll(a) + PtrsAll(c);
    var entries, mid := AllocAll(store, nodes, bodies, others);
    r := es[..i] + entries + es[j..];
    kids' := a + mid + c;
    ReplaceKidsAgrees(kids, i, j, mid, bodies, entries);
    PutBack(before, store.pages, a, mid, c, rest, multiset(store.pinned));
  }

  /** The children around a replaced stretch are still stored, and the accounting adds up. */
  lemma PutBack(before: map<nat, Node>, after: map<nat, Node>, a: seq<PTree>, mid: seq<PTree>, c: seq<PTree>,
                rest: multiset<nat>, pinned: multiset<nat>)
    requires StoredAll(before, a) && StoredAll(before, c) && StoredAll(after, mid)
    requires Agree(before, after, rest + PtrsAll(a) + PtrsAll(c) + pinned)
    ensures StoredAll(after, a + mid + c)
    ensures PtrsAll(a + mid + c) == PtrsAll(a) + PtrsAll(mid) + PtrsAll(c)
    ensures Agree(before, after, rest + pinned)
  {
    PtrsAllConcat(a + mid, c);
    PtrsAllConcat(a, mid);
    AgreeParts(before, after, rest, PtrsAll(a), PtrsAll(c), pinned);
    StoredAllFrame(before, after, a);
    StoredAllFrame(before, after, c);
    StoredParts(after, a + mid, c);
    StoredParts(after, a, mid);
  }

  /** A subtree has been rebuilt without touching its siblings. */
  lemma StillOpen(before: map<nat, Node>, after: map<nat, Node>, kids: seq<PTree>, i: nat, j: nat,
                  rest: multiset<nat>, pinned: multiset<nat>)
    requires i <= j <= |kids| && StoredAll(before, kids)
    requires Agree(before, after, rest + PtrsAll(kids[..i]) + PtrsAll(kids[j..]) + pinned)
    ensures StoredAll(after, kids[..i]) && StoredAll(after, kids[j..])
    ensures Agree(before, after, rest + pinned)
  {
    AgreeParts(before, after, rest, PtrsAll(kids[..i]), PtrsAll(kids[j..]), pinned);
    StoredAllFrame(before, after, kids[..i]);
    StoredAllFrame(before, after, kids[j..]);
  }

  /**
   treeInsert. `rest` accounts for the live pages outside this subtree. The result is false
   when a built node does not fit its buffer; there the original panics, or cuts the node off
   without a word where only the copied bytes do not fit (node.go:100).
   */
  method InsertInto(store: PageStore, node: Node, ghost b: Body, key: seq<byte>, val: seq<byte>,
                    ghost rest: multiset<nat>)
    returns (ok: bool, built: Node, ghost b': Body)
    requires node == NodeOf(b) && Full(Shape(b))
    requires Placed(store, [], Kids(b), rest)
    modifies store`pages, store`live
    ensures store.Valid() && Kept(old(store.pages), store, rest)
    ensures ok <==> InsertFits(Shape(b), key, val)
    ensures ok ==> && built == NodeOf(b') && Shape(b') == InsertNode(Shape(b), key, val)
                   && Placed(store, [], Kids(b'), rest)
    decreases b, 1
  {
    NodeOfShape(b);
    if node.leaf {
      ok, built, b' := InsertAtLeaf(node, b, key, val);
    } else {
      var idx := LookupLE(EntryKeys(node.entries), key);
      ShapeIsShapes(b.kids);
      InsertInnerFits(Shapes(b.kids), idx, key, val);
      ok, built, b' := InsertAtKid(store, node, b.kids, idx, key, val, rest);
    }
  }

  /** What insertion into an inner node comes to, in terms of its child. */
  lemma InsertInnerFits(kids: seq<Tree>, idx: nat, k: seq<byte>, v: seq<byte>)
    requires kids != [] && idx == LookupLE(KeysOf(Inner(kids)), k)
    ensures var s := Inner(kids[..idx] + Split3(InsertNode(kids[idx], k, v)) + kids[idx + 1..]);
            && InsertNode(Inner(kids), k, v) == s
            && (InsertFits(Inner(kids), k, v)
                <==> && InsertFits(kids[idx], k, v) && PiecesFit(InsertNode(kids[idx], k, v))
                     && NBytes(s) <= 2 * PAGE_SIZE)
  {
  }

  method InsertAtKid(store: PageStore, node: Node, ghost kids: seq<PTree>, idx: nat, key: seq<byte>, val: seq<byte>,
                     ghost rest: multiset<nat>)
    returns (ok: bool, built: Node, ghost b': Body)
    requires node == NodeOf(BInner(kids)) && idx < |kids| && Full(Shape(kids[idx].body))
    requires Placed(store, [], kids, rest)
    modifies store`pages, store`live
    ensures store.Valid() && Kept(old(store.pages), store, rest)
    ensures var kid := Shape(kids[idx].body);
            var s := Inner(Shapes(kids)[..idx] + Split3(InsertNode(kid, key, val)) + Shapes(kids)[idx + 1..]);
            && (ok <==> InsertFits(kid, key, val) && PiecesFit(InsertNode(kid, key, val)) && NBytes(s) <= 2 * PAGE_SIZE)
            && (ok ==> built == NodeOf(b') && Shape(b') == s && Placed(store, [], Kids(b'), rest))
    decreases kids, 3
  {
    ghost var before := store.pages;
    var knode;
    ghost var kb;
    ok, knode, kb := InsertIntoKid(store, node, kids, idx, key, val, rest);
    built, b' := node, BInner(kids);
    if ok {
      ghost var mid := store.pages;
      ok, built, b' := SplitKid(store, node, kids, idx, knode, kb, rest);
      AgreeTrans(before, mid, store.pages, rest + multiset(store.pinned));
    }
  }

  method InsertAtLeaf(node: Node, ghost b: Body, key: seq<byte>, val: seq<byte>)
    returns (ok: bool, built: Node, ghost b': Body)
    requires node == NodeOf(b) && b.BLeaf?
    ensures ok <==> InsertFits(Shape(b), key, val)
    ensures built == NodeOf(b') && Shape(b') == InsertNode(Shape(b), key, val) && Kids(b') == []
  {
    built := Node(true, InsertIntoLeaf(node.entries, key, val));
    b' := BLeaf(InsertNode(Shape(b), key, val).kvs);
    InsertIntoLeafAgrees(b.kvs, key, val);
    NodeOfShape(b');
    ok := NodeBytes(built.entries) <= 2 * PAGE_SIZE;
  }

  /** A child's page is read and freed; its own children are still there. */
  method TakeChild(store: PageStore, node: Node, ghost kids: seq<PTree>, idx: nat, ghost others: multiset<nat>,
                   ghost rest: multiset<nat>)
    returns (knode: Node)
    requires node == NodeOf(BInner(kids)) && idx < |kids| && Placed(store, [], kids, rest)
    requires others == rest + PtrsAll(kids[..idx]) + PtrsAll(kids[idx + 1..])
    modifies store`live
    ensures knode == NodeOf(kids[idx].body) && Placed(store, [], Kids(kids[idx].body), others)
  {
    ghost var kid := kids[idx];
    var kptr := node.entries[idx].ptr;
    TakeOut(kids, idx, rest);
    Accounted(store.live, others + PtrsAll(Kids(kid.body)), kptr);
    knode := store.GetPage(kptr);
    store.DelPage(kptr);
  }

  /** Whether all pieces fit a page. */
  method PiecesOk(split: seq<Node>, ghost b: Body) returns (ok: bool)
    requires split == NodeSplit3(NodeOf(b))
    ensures ok <==> PiecesFit(Shape(b))
    ensures ok <==> forall i :: 0 <= i < |split| ==> NodeBytes(split[i].entries) <= PAGE_SIZE
  {
    BodySplit3Agree(b);
    ok := forall i :: 0 <= i < |split| ==> NodeBytes(split[i].entries) <= PAGE_SIZE;
    forall i | 0 <= i < |split| { NodeOfShape(BodySplit3(b)[i]); }
  }

  /** The child's page is read and freed, and the child is rebuilt. */
  method InsertIntoKid(store: PageStore, node: Node, ghost kids: seq<PTree>, idx: nat, key: seq<byte>,
                       val: seq<byte>, ghost rest: multiset<nat>)
    returns (ok: bool, knode: Node, ghost kb: Body)
    requires node == NodeOf(BInner(kids)) && idx < |kids| && Full(Shape(kids[idx].body))
    requires Placed(store, [], kids, rest)
    modifies store`pages, store`live
    ensures store.Valid() && Kept(old(store.pages), store, rest)
    ensures ok <==> InsertFits(Shape(kids[idx].body), key, val)
    ensures ok ==> && knode == NodeOf(kb) && Shape(kb) == InsertNode(Shape(kids[idx].body), key, val)
                   && Open(store, kids, idx, idx + 1, Kids(kb), rest)
    decreases kids, 2
  {
    ghost var before := store.pages;
    ghost var kid := kids[idx];
    ghost var others := rest + PtrsAll(kids[..idx]) + PtrsAll(kids[idx + 1..]);
    knode := TakeChild(store, node, kids, idx, others, rest);
    ok, knode, kb := InsertInto(store, knode, kid.body, key, val, others);
    StillOpen(before, store.pages, kids, idx, idx + 1, rest, multiset(store.pinned));
  }

  lemma SplitBodies(b: Body)
    ensures var split, bodies := NodeSplit3(NodeOf(b)), BodySplit3(b);
            && AllKids(bodies) == Kids(b) && BodyShapes(bodies) == Split3(Shape(b))
            && |split| == |bodies| && forall i :: 0 <= i < |split| ==> split[i] == NodeOf(bodies[i])
  {
    BodySplit3Agree(b);
    BodySplit3Kids(b);
    assert BodyShapes(BodySplit3(b)) == Split3(Shape(b));
  }

  /** The end of treeInsert: the rebuilt child is split and its pieces replace it. */
  method SplitKid(store: PageStore, node: Node, ghost kids: seq<PTree>, idx: nat, knode: Node, ghost kb: Body,
                  ghost rest: multiset<nat>)
    returns (ok: bool, built: Node, ghost b': Body)
    requires node == NodeOf(BInner(kids)) && idx < |kids| && knode == NodeOf(kb)
    requires Open(store, kids, idx, idx + 1, Kids(kb), rest)
    modifies store`pages, store`live
    ensures store.Valid() && Kept(old(store.pages), store, rest)
    ensures var s := Inner(Shapes(kids)[..idx] + Split3(Shape(kb)) + Shapes(kids)[idx + 1..]);
            && (ok <==> PiecesFit(Shape(kb)) && NBytes(s) <= 2 * PAGE_SIZE)
            && (ok ==> built == NodeOf(b') && Shape(b') == s && Placed(store, [], Kids(b'), rest))
  {
    var split := NodeSplit3(knode);
    SplitBodies(kb);
    ok := PiecesOk(split, kb);
    built, b' := node, kb;
    if ok {
      var es, kids' := ReplaceKids(store, node.entries, kids, idx, idx + 1, split, BodySplit3(kb), rest);
      built, b' := Node(false, es), BInner(kids');
      NodeOfShape(b');
      ok := NodeBytes(built.entries) <= 2 * PAGE_SIZE;
    }
  }

  // ---------------------------------------------------------------------------------------
  // Deletion.
  // ---------------------------------------------------------------------------------------

  function JoinBodies(left: Body, right: Body): Body {
    match (left, right)
    case (BLeaf(a), BLeaf(b)) => BLeaf(a + b)
    case (BInner(a), BInner(b)) => BInner(a + b)
    case _ => left
  }

  lemma JoinNodes(left: Body, right: Body)
    requires left.BLeaf? <==> right.BLeaf?
    ensures NodeOf(JoinBodies(left, right)).entries == NodeOf(left).entries + NodeOf(right).entries
  {
    var es, fs := NodeOf(left).entries, NodeOf(right).entries;
    var r := NodeOf(JoinBodies(left, right)).entries;
    assert |r| == |es| + |fs|;
    forall i | 0 <= i < |r| ensures r[i] == (es + fs)[i] { }
  }

  lemma JoinShapes(a: seq<PTree>, b: seq<PTree>)
    ensures Shapes(a + b) == Shapes(a) + Shapes(b)
  {
  }

  lemma JoinBodiesAgrees(left: Body, right: Body)
    requires left.BLeaf? <==> right.BLeaf?
    ensures NodeOf(JoinBodies(left, right)) == Node(NodeOf(left).leaf, NodeOf(left).entries + NodeOf(right).entries)
    ensures Shape(JoinBodies(left, right)) == Joined(Shape(left), Shape(right))
    ensures Kids(JoinBodies(left, right)) == Kids(left) + Kids(right)
  {
    JoinNodes(left, right);
    if left.BInner? {
      JoinShapes(left.kids, right.kids);
      ShapeIsShapes(left.kids);
      ShapeIsShapes(right.kids);
      ShapeIsShapes(left.kids + right.kids);
    }
  }

  lemma ShapeIsShapes(kids: seq<PTree>)
    ensures Shape(BInner(kids)) == Inner(Shapes(kids))
  {
    assert Shape(BInner(kids)).kids == Shapes(kids);
  }

  lemma LeafRemoved(kvs: seq<KV>, i: nat)
    requires i < |kvs|
    ensures var es := NodeOf(BLeaf(kvs)).entries;
            |es| == |kvs| && NodeOf(BLeaf(kvs[..i] + kvs[i + 1..])).entries == EntryRemoved(es, i)
  {
  }

  /** A freed neighbour leaves its own children to the merged node. */
  lemma FreeNeighbour(pages: map<nat, Node>, kids: seq<PTree>, i: nat, inner: seq<PTree>, rest: multiset<nat>)
    requires 0 < i < |kids|
    requires StoredAll(pages, kids[..i])
    ensures rest + PtrsAll(kids[..i]) + PtrsAll(kids[i + 1..]) + PtrsAll(inner)
         == rest + PtrsAll(kids[..i - 1]) + PtrsAll(kids[i + 1..]) + PtrsAll(Kids(kids[i - 1].body) + inner)
            + multiset{kids[i - 1].ptr}
    ensures StoredAll(pages, kids[..i - 1]) && Stored(pages, kids[i - 1])
  {
    assert kids[..i] == kids[..i - 1] + [kids[i - 1]];
    PtrsAllConcat(kids[..i - 1], [kids[i - 1]]);
    PtrsAllOne(kids[i - 1]);
    PtrsAllConcat(Kids(kids[i - 1].body), inner);
    StoredParts(pages, kids[..i - 1], [kids[i - 1]]);
    assert Stored(pages, [kids[i - 1]][0]);
  }

  lemma FreeNext(pages: map<nat, Node>, kids: seq<PTree>, i: nat, inner: seq<PTree>, rest: multiset<nat>)
    requires i + 1 < |kids|
    requires StoredAll(pages, kids[i + 1..])
    ensures rest + PtrsAll(kids[..i]) + PtrsAll(kids[i + 1..]) + PtrsAll(inner)
         == rest + PtrsAll(kids[..i]) + PtrsAll(kids[i + 2..]) + PtrsAll(inner + Kids(kids[i + 1].body))
            + multiset{kids[i + 1].ptr}
    ensures StoredAll(pages, kids[i + 2..]) && Stored(pages, kids[i + 1])
  {
    assert kids[i + 1..] == [kids[i + 1]] + kids[i + 2..];
    PtrsAllConcat([kids[i + 1]], kids[i + 2..]);
    PtrsAllOne(kids[i + 1]);
    PtrsAllConcat(inner, Kids(kids[i + 1].body));
    StoredParts(pages, [kids[i + 1]], kids[i + 2..]);
    assert Stored(pages, [kids[i + 1]][0]);
  }

  /** One node takes the place of children `i..j`. */
  method ReplaceOne(store: PageStore, node: Node, ghost kids: seq<PTree>, i: nat, j: nat, one: Node,
                    ghost b: Body, ghost rest: multiset<nat>)
    returns (built: Node, ghost b': Body)
    requires node == NodeOf(BInner(kids)) && i <= j <= |kids| && one == NodeOf(b)
    requires Open(store, kids, i, j, Kids(b), rest) && NBytes(Shape(b)) <= PAGE_SIZE
    modifies store`pages, store`live
    ensures Placed(store, [], Kids(b'), rest) && Kept(old(store.pages), store, rest)
    ensures built == NodeOf(b')
    ensures Shape(b') == Inner(Shapes(kids)[..i] + [Shape(b)] + Shapes(kids)[j..])
  {
    NodeOfShape(b);
    AllKids1(b);
    assert BodyShapes([b]) == [Shape(b)];
    var es, kids' := ReplaceKids(store, node.entries, kids, i, j, [one], [b], rest);
    built, b' := Node(false, es), BInner(kids');
  }

  /** The left sibling's page is read and freed; its children go to the merged node. */
  method TakeLeft(store: PageStore, node: Node, ghost kids: seq<PTree>, idx: nat, ghost inner: seq<PTree>,
                  ghost rest: multiset<nat>)
    returns (sibling: Node)
    requires node == NodeOf(BInner(kids)) && 0 < idx < |kids|
    requires Open(store, kids, idx, idx + 1, inner, rest)
    modifies store`live
    ensures sibling == NodeOf(kids[idx - 1].body)
    ensures Open(store, kids, idx - 1, idx + 1, Kids(kids[idx - 1].body) + inner, rest)
  {
    FreeNeighbour(store.pages, kids, idx, inner, rest);
    StoredParts(store.pages, Kids(kids[idx - 1].body), inner);
    var ptr := node.entries[idx - 1].ptr;
    Accounted(store.live, rest + PtrsAll(kids[..idx - 1]) + PtrsAll(kids[idx + 1..])
                          + PtrsAll(Kids(kids[idx - 1].body) + inner), ptr);
    sibling := store.GetPage(ptr);
    store.DelPage(ptr);
  }

  /** treeDelete, merge with the left sibling. */
  method MergeWithLeft(store: PageStore, node: Node, ghost kids: seq<PTree>, idx: nat, updated: Node,
                       ghost ub: Body, ghost rest: multiset<nat>)
    returns (built: Node, ghost b': Body)
    requires node == NodeOf(BInner(kids)) && 0 < idx < |kids| && updated == NodeOf(ub)
    requires Open(store, kids, idx, idx + 1, Kids(ub), rest)
    requires kids[idx - 1].body.BLeaf? <==> ub.BLeaf?
    requires NBytes(Joined(Shape(kids[idx - 1].body), Shape(ub))) <= PAGE_SIZE
    modifies store`pages, store`live
    ensures Placed(store, [], Kids(b'), rest) && Kept(old(store.pages), store, rest)
    ensures built == NodeOf(b')
    ensures Shape(b') == Inner(Shapes(kids)[..idx - 1] + [Joined(Shape(kids[idx - 1].body), Shape(ub))]
                               + Shapes(kids)[idx + 1..])
  {
    ghost var joined := JoinBodies(kids[idx - 1].body, ub);
    JoinBodiesAgrees(kids[idx - 1].body, ub);
    var sibling := TakeLeft(store, node, kids, idx, Kids(ub), rest);
    var merged := Node(sibling.leaf, sibling.entries + updated.entries);
    built, b' := ReplaceOne(store, node, kids, idx - 1, idx + 1, merged, joined, rest);
  }

  /** The right sibling's page is read and freed; its children go to the merged node. */
  method TakeRight(store: PageStore, node: Node, ghost kids: seq<PTree>, idx: nat, ghost inner: seq<PTree>,
                  ghost rest: multiset<nat>)
    returns (sibling: Node)
    requires node == NodeOf(BInner(kids)) && idx + 1 < |kids|
    requires Open(store, kids, idx, idx + 1, inner, rest)
    modifies store`live
    ensures sibling == NodeOf(kids[idx + 1].body)
    ensures Open(store, kids, idx, idx + 2, inner + Kids(kids[idx + 1].body), rest)
  {
    FreeNext(store.pages, kids, idx, inner, rest);
    StoredParts(store.pages, inner, Kids(kids[idx + 1].body));
    var ptr := node.entries[idx + 1].ptr;
    Accounted(store.live, rest + PtrsAll(kids[..idx]) + PtrsAll(kids[idx + 2..])
                          + PtrsAll(inner + Kids(kids[idx + 1].body)), ptr);
    sibling := store.GetPage(ptr);
    store.DelPage(ptr);
  }

  /** treeDelete, merge with the right sibling. */
  method MergeWithRight(store: PageStore, node: Node, ghost kids: seq<PTree>, idx: nat, updated: Node,
                       ghost ub: Body, ghost rest: multiset<nat>)
    returns (built: Node, ghost b': Body)
    requires node == NodeOf(BInner(kids)) && idx + 1 < |kids| && updated == NodeOf(ub)
    requires Open(store, kids, idx, idx + 1, Kids(ub), rest)
    requires kids[idx + 1].body.BLeaf? <==> ub.BLeaf?
    requires NBytes(Joined(Shape(ub), Shape(kids[idx + 1].body))) <= PAGE_SIZE
    modifies store`pages, store`live
    ensures Placed(store, [], Kids(b'), rest) && Kept(old(store.pages), store, rest)
    ensures built == NodeOf(b')
    ensures Shape(b') == Inner(Shapes(kids)[..idx] + [Joined(Shape(ub), Shape(kids[idx + 1].body))]
                               + Shapes(kids)[idx + 2..])
  {
    ghost var joined := JoinBodies(ub, kids[idx + 1].body);
    JoinBodiesAgrees(ub, kids[idx + 1].body);
    var sibling := TakeRight(store, node, kids, idx, Kids(ub), rest);
    var merged := Node(updated.leaf, updated.entries + sibling.entries);
    built, b' := ReplaceOne(store, node, kids, idx, idx + 2, merged, joined, rest);
  }

  /** A sibling's page, for its size. */
  method ReadSibling(store: PageStore, node: Node, ghost kids: seq<PTree>, idx: nat, i: nat, ghost inner: seq<PTree>,
                     ghost rest: multiset<nat>)
    returns (bytes: nat)
    requires node == NodeOf(BInner(kids)) && idx < |kids| && i < |kids| && i != idx
    requires Open(store, kids, idx, idx + 1, inner, rest)
    ensures bytes == NBytes(Shapes(kids)[i])
  {
    ghost var side, at := if i < idx then kids[..idx] else kids[idx + 1..], if i < idx then i else i - idx - 1;
    assert side[at] == kids[i];
    PtrsKid(side, at);
    assert kids[i].ptr in Ptrs(side[at]);
    assert kids[i].ptr in multiset(store.live);
    var sibling := store.GetPage(node.entries[i].ptr);
    NodeOfShape(kids[i].body);
    bytes := NodeBytes(sibling.entries);
  }

  /** shouldMerge: sizes are read from the siblings' pages. */
  method DecideMerge(store: PageStore, node: Node, ghost kids: seq<PTree>, idx: nat, updated: Node,
                     ghost ub: Body, ghost rest: multiset<nat>)
    returns (m: Merge)
    requires node == NodeOf(BInner(kids)) && idx < |kids| && updated == NodeOf(ub)
    requires Open(store, kids, idx, idx + 1, Kids(ub), rest)
    ensures m == ShouldMerge(Shapes(kids), idx, Shape(ub))
  {
    NodeOfShape(ub);
    if NodeBytes(updated.entries) > PAGE_SIZE / 4 {
      return NoMerge;
    }
    if idx > 0 {
      var bytes := ReadSibling(store, node, kids, idx, idx - 1, Kids(ub), rest);
      if bytes + NodeBytes(updated.entries) - HEADER <= PAGE_SIZE {
        return MergeLeft;
      }
    }
    if idx + 1 < |node.entries| {
      var bytes := ReadSibling(store, node, kids, idx, idx + 1, Kids(ub), rest);
      if bytes + NodeBytes(updated.entries) - HEADER <= PAGE_SIZE {
        return MergeRight;
      }
    }
    return NoMerge;
  }

  lemma OnlyChild(kids: seq<PTree>, idx: nat, ub: Body)
    requires idx < |kids| && AllFit(Shapes(kids)) && Count(Shape(ub)) == 0
    requires ShouldMerge(Shapes(kids), idx, Shape(ub)) == NoMerge
    ensures kids[..idx] == [] && kids[idx + 1..] == [] && Kids(ub) == []
  {
    EmptyChildMerges(Shapes(kids), idx, Shape(ub));
  }

  /** The end of treeDelete: the parent of the rebuilt child. */
  method RebuildParent(store: PageStore, node: Node, ghost kids: seq<PTree>, idx: nat, updated: Node,
                       ghost ub: Body, ghost rest: multiset<nat>)
    returns (ok: bool, built: Node, ghost b': Body)
    requires node == NodeOf(BInner(kids)) && idx < |kids| && updated == NodeOf(ub)
    requires Open(store, kids, idx, idx + 1, Kids(ub), rest)
    requires SameKind(Shapes(kids), Shape(ub)) && AllFit(Shapes(kids)) && NBytes(Shape(ub)) <= PAGE_SIZE
    modifies store`pages, store`live
    ensures store.Valid() && Kept(old(store.pages), store, rest)
    ensures var r := Rebuild(Shapes(kids), idx, Shape(ub));
            && (ok <==> NBytes(r) <= PAGE_SIZE)
            && (ok ==> built == NodeOf(b') && Shape(b') == r && Placed(store, [], Kids(b'), rest))
  {
    var m := DecideMerge(store, node, kids, idx, updated, ub, rest);
    built, b' := BuildParent(store, node, kids, idx, updated, ub, m, rest);
    NodeOfShape(b');
    ok := NodeBytes(built.entries) <= PAGE_SIZE;
  }

  lemma MergeFits(kids: seq<Tree>, idx: nat, u: Tree)
    requires idx < |kids| && SameKind(kids, u)
    ensures match ShouldMerge(kids, idx, u)
            case MergeLeft => idx > 0 && NBytes(Joined(kids[idx - 1], u)) <= PAGE_SIZE
            case MergeRight => idx + 1 < |kids| && NBytes(Joined(u, kids[idx + 1])) <= PAGE_SIZE
            case NoMerge => true
  {
    match ShouldMerge(kids, idx, u)
    case MergeLeft => JoinedBytes(kids[idx - 1], u);
    case MergeRight => JoinedBytes(u, kids[idx + 1]);
    case NoMerge =>
  }

  method BuildParent(store: PageStore, node: Node, ghost kids: seq<PTree>, idx: nat, updated: Node,
                     ghost ub: Body, m: Merge, ghost rest: multiset<nat>)
    returns (built: Node, ghost b': Body)
    requires node == NodeOf(BInner(kids)) && idx < |kids| && updated == NodeOf(ub)
    requires Open(store, kids, idx, idx + 1, Kids(ub), rest) && m == ShouldMerge(Shapes(kids), idx, Shape(ub))
    requires SameKind(Shapes(kids), Shape(ub)) && AllFit(Shapes(kids)) && NBytes(Shape(ub)) <= PAGE_SIZE
    modifies store`pages, store`live
    ensures Placed(store, [], Kids(b'), rest) && Kept(old(store.pages), store, rest)
    ensures built == NodeOf(b') && Shape(b') == Rebuild(Shapes(kids), idx, Shape(ub))
  {
    if m == NoMerge {
      built, b' := KeepKid(store, node, kids, idx, updated, ub, rest);
    } else {
      MergeFits(Shapes(kids), idx, Shape(ub));
      if m == MergeLeft {
        assert Shapes(kids)[idx - 1] == Shape(kids[idx - 1].body);
        built, b' := MergeWithLeft(store, node, kids, idx, updated, ub, rest);
      } else {
        assert Shapes(kids)[idx + 1] == Shape(kids[idx + 1].body);
        built, b' := MergeWithRight(store, node, kids, idx, updated, ub, rest);
      }
    }
  }

  /** treeDelete, no merge: the rebuilt child takes the place of the old one, or an only child goes. */
  method KeepKid(store: PageStore, node: Node, ghost kids: seq<PTree>, idx: nat, updated: Node,
                 ghost ub: Body, ghost rest: multiset<nat>)
    returns (built: Node, ghost b': Body)
    requires node == NodeOf(BInner(kids)) && idx < |kids| && updated == NodeOf(ub)
    requires Open(store, kids, idx, idx + 1, Kids(ub), rest)
    requires ShouldMerge(Shapes(kids), idx, Shape(ub)) == NoMerge
    requires AllFit(Shapes(kids)) && NBytes(Shape(ub)) <= PAGE_SIZE
    modifies store`pages, store`live
    ensures Placed(store, [], Kids(b'), rest) && Kept(old(store.pages), store, rest)
    ensures built == NodeOf(b') && Shape(b') == Rebuild(Shapes(kids), idx, Shape(ub))
  {
    NodeOfShape(ub);
    if updated.entries == [] {
      OnlyChild(kids, idx, ub);
      built, b' := Node(false, []), BInner([]);
    } else {
      built, b' := ReplaceOne(store, node, kids, idx, idx + 1, updated, ub, rest);
    }
  }

  /** The leaf case of treeDelete. */
  method DeleteFromLeaf(node: Node, ghost b: Body, key: seq<byte>)
    returns (found: bool, ok: bool, built: Node, ghost b': Body)
    requires node == NodeOf(b) && b.BLeaf? && b.kvs != []
    ensures found <==> DeleteNode(Shape(b), key).Some?
    ensures ok <==> DeleteFits(Shape(b), key)
    ensures found ==> built == NodeOf(b') && Some(Shape(b')) == DeleteNode(Shape(b), key) && b'.BLeaf?
  {
    NodeOfShape(b);
    var idx := LookupLE(EntryKeys(node.entries), key);
    built, b' := node, b;
    found, ok := node.entries[idx].key == key, true;
    if found {
      LeafRemoved(b.kvs, idx);
      built := Node(true, EntryRemoved(node.entries, idx));
      b' := BLeaf(b.kvs[..idx] + b.kvs[idx + 1..]);
      NodeOfShape(b');
      ok := NodeBytes(built.entries) <= PAGE_SIZE;
    }
  }

  /** treeDelete. An unsuccessful search touches no page. */
  method DeleteFrom(store: PageStore, node: Node, ghost b: Body, ghost h: nat, key: seq<byte>,
                    ghost rest: multiset<nat>)
    returns (found: bool, ok: bool, built: Node, ghost b': Body)
    requires node == NodeOf(b) && Uniform(Shape(b), h) && Full(Shape(b)) && Fit(Shape(b))
    requires Placed(store, [], Kids(b), rest)
    modifies store`pages, store`live
    ensures store.Valid() && Kept(old(store.pages), store, rest)
    ensures found <==> DeleteNode(Shape(b), key).Some?
    ensures !found ==> store.pages == old(store.pages) && store.live == old(store.live)
    ensures ok <==> DeleteFits(Shape(b), key)
    ensures found && ok ==> && built == NodeOf(b') && Some(Shape(b')) == DeleteNode(Shape(b), key)
                            && Placed(store, [], Kids(b'), rest)
    decreases b, 1
  {
    if node.leaf {
      found, ok, built, b' := DeleteFromLeaf(node, b, key);
    } else {
      NodeOfShape(b);
      var idx := LookupLE(EntryKeys(node.entries), key);
      ShapeIsShapes(b.kids);
      DeleteInnerFits(Shapes(b.kids), idx, key);
      found, ok, built, b' := DeleteBelow(store, node, b.kids, h, idx, key, rest);
    }
  }

  /** What deletion from an inner node comes to, in terms of its child. */
  lemma DeleteInnerFits(kids: seq<Tree>, idx: nat, k: seq<byte>)
    requires kids != [] && idx == LookupLE(KeysOf(Inner(kids)), k)
    ensures var sub, r := DeleteNode(kids[idx], k), DeleteNode(Inner(kids), k);
            && (r.Some? <==> sub.Some?)
            && (sub.Some? ==> r == Some(Rebuild(kids, idx, sub.value)))
            && (DeleteFits(Inner(kids), k)
                <==> (sub.Some? ==> DeleteFits(kids[idx], k) && NBytes(Rebuild(kids, idx, sub.value)) <= PAGE_SIZE))
  {
  }

  method DeleteBelow(store: PageStore, node: Node, ghost kids: seq<PTree>, ghost h: nat, idx: nat, key: seq<byte>,
                     ghost rest: multiset<nat>)
    returns (found: bool, ok: bool, built: Node, ghost b': Body)
    requires node == NodeOf(BInner(kids)) && idx < |kids|
    requires Uniform(Inner(Shapes(kids)), h) && AllFull(Shapes(kids)) && AllFit(Shapes(kids))
    requires Placed(store, [], kids, rest)
    modifies store`pages, store`live
    ensures store.Valid() && Kept(old(store.pages), store, rest)
    ensures var kid := Shape(kids[idx].body);
            var sub := DeleteNode(kid, key);
            && (found <==> sub.Some?)
            && (!found ==> ok && store.pages == old(store.pages) && store.live == old(store.live))
            && (found ==> (ok <==> DeleteFits(kid, key) && NBytes(Rebuild(Shapes(kids), idx, sub.value)) <= PAGE_SIZE))
            && (found && ok ==> && built == NodeOf(b') && Shape(b') == Rebuild(Shapes(kids), idx, sub.value)
                                && Placed(store, [], Kids(b'), rest))
    decreases kids, 4
  {
    built, b' := node, BInner(kids);
    ghost var before := store.pages;
    var updated;
    ghost var ub;
    found, ok, updated, ub := DeleteFromKid(store, node, kids, h, idx, key, rest);
    if found && ok {
      ghost var mid := store.pages;
      SameKindAsSiblings(Shapes(kids), h, idx, Shape(ub));
      ok, built, b' := RebuildParent(store, node, kids, idx, updated, ub, rest);
      AgreeTrans(before, mid, store.pages, rest + multiset(store.pinned));
    }
  }

  /** The child is searched first; only when the key was found is the child's page freed. */
  method DeleteFromKid(store: PageStore, node: Node, ghost kids: seq<PTree>, ghost h: nat, idx: nat,
                       key: seq<byte>, ghost rest: multiset<nat>)
    returns (found: bool, ok: bool, updated: Node, ghost ub: Body)
    requires node == NodeOf(BInner(kids)) && idx < |kids|
    requires Uniform(Inner(Shapes(kids)), h) && AllFull(Shapes(kids)) && AllFit(Shapes(kids))
    requires Placed(store, [], kids, rest)
    modifies store`pages, store`live
    ensures store.Valid() && Kept(old(store.pages), store, rest)
    ensures var kid := Shape(kids[idx].body);
            && (found <==> DeleteNode(kid, key).Some?)
            && (ok <==> DeleteFits(kid, key))
            && (!found ==> store.pages == old(store.pages) && store.live == old(store.live))
            && (found && ok ==> && updated == NodeOf(ub) && Some(Shape(ub)) == DeleteNode(kid, key)
                                && (Shape(ub).Leaf? <==> kid.Leaf?) && NBytes(Shape(ub)) <= PAGE_SIZE
                                && Open(store, kids, idx, idx + 1, Kids(ub), rest))
    decreases kids, 3
  {
    var kptr := node.entries[idx].ptr;
    ghost var before := store.pages;
    ghost var kid := kids[idx];
    ghost var others := rest + PtrsAll(kids[..idx]) + PtrsAll(kids[idx + 1..]);
    assert Shapes(kids)[idx] == Shape(kid.body);
    TakeOut(kids, idx, rest);
    found, ok, updated, ub := DeleteAtKid(store, kptr, kid, h - 1, key, others);
    StillOpen(before, store.pages, kids, idx, idx + 1, rest, multiset(store.pinned));
    if found && ok {
      DeletedKid(Shape(kids[idx].body), key, Shape(ub));
      FreeKid(store, kids, idx, kptr, Kids(ub), rest);
    }
  }

  /** The child's page is read and the child rebuilt; its own page is still there. */
  method DeleteAtKid(store: PageStore, kptr: nat, ghost kid: PTree, ghost h: nat, key: seq<byte>,
                     ghost others: multiset<nat>)
    returns (found: bool, ok: bool, updated: Node, ghost ub: Body)
    requires kptr == kid.ptr && Uniform(Shape(kid.body), h) && Full(Shape(kid.body)) && Fit(Shape(kid.body))
    requires store.Valid() && Stored(store.pages, kid)
    requires multiset(store.live) == others + PtrsAll(Kids(kid.body)) + multiset{kptr}
    modifies store`pages, store`live
    ensures store.Valid() && Kept(old(store.pages), store, others)
    ensures found <==> DeleteNode(Shape(kid.body), key).Some?
    ensures ok <==> DeleteFits(Shape(kid.body), key)
    ensures !found ==> store.pages == old(store.pages) && store.live == old(store.live)
    ensures found && ok ==> && updated == NodeOf(ub) && Some(Shape(ub)) == DeleteNode(Shape(kid.body), key)
                            && StoredAll(store.pages, Kids(ub))
                            && multiset(store.live) == others + multiset{kptr} + PtrsAll(Kids(ub))
    decreases kid.body, 2
  {
    ghost var before := store.pages;
    Accounted(store.live, others + PtrsAll(Kids(kid.body)), kptr);
    updated := store.GetPage(kptr);
    found, ok, updated, ub := DeleteFrom(store, updated, kid.body, h, key, others + multiset{kptr});
    AgreeSub(before, store.pages, others + multiset{kptr} + multiset(store.pinned), others + multiset(store.pinned));
  }

  lemma DeletedKid(kid: Tree, key: seq<byte>, u: Tree)
    requires DeleteNode(kid, key) == Some(u) && DeleteFits(kid, key)
    ensures (u.Leaf? <==> kid.Leaf?) && NBytes(u) <= PAGE_SIZE
  {
    DeleteNodeKind(kid, key);
  }

  /** The old child's page is freed once the child has been rebuilt. */
  method FreeKid(store: PageStore, ghost kids: seq<PTree>, ghost idx: nat, kptr: nat, ghost inner: seq<PTree>,
                 ghost rest: multiset<nat>)
    requires idx < |kids| && store.Valid() && StoredAll(store.pages, inner)
    requires StoredAll(store.pages, kids[..idx]) && StoredAll(store.pages, kids[idx + 1..])
    requires multiset(store.live)
          == rest + PtrsAll(kids[..idx]) + PtrsAll(kids[idx + 1..]) + multiset{kptr} + PtrsAll(inner)
    modifies store`live
    ensures Open(store, kids, idx, idx + 1, inner, rest)
  {
    Accounted(store.live, rest + PtrsAll(kids[..idx]) + PtrsAll(kids[idx + 1..]) + PtrsAll(inner), kptr);
    store.DelPage(kptr);
  }
}
