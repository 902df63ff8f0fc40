/** The tree object and its operations. */
module BPlusTree {
  import opened Basics
  import opened Bytes
  import opened NodeSize
  import opened Nodes
  import opened Trees
  import opened TreeGet
  import opened PagedTrees
  import opened PageStores
  import opened BTrees
  import TI = TreeInsert
  import TD = TreeDelete

  type Store = map<seq<byte>, seq<byte>>

  ghost function MapOf(o: Option<Tree>): Store {
    match o
    case None => map[]
    case Some(t) => AsMap(Flat(t))
  }

  ghost predicate GoodTop(o: Option<Tree>, h: nat) {
    o.Some? ==> Good(o.value, h)
  }

  /** Every node that an insertion builds fits its buffer. */
  predicate InsertFits(o: Option<Tree>, k: seq<byte>, v: seq<byte>) {
    match o
    case None => NBytes(Leaf([KV(k, v)])) <= PAGE_SIZE
    case Some(t) => TI.InsertRootFits(t, k, v)
  }

  ghost function HeightAfter(o: Option<Tree>, h: nat, k: seq<byte>, v: seq<byte>): nat {
    if o.None? then 0 else TI.HeightAfter(o.value, h, k, v)
  }

  lemma InsertKeeps(o: Option<Tree>, h: nat, k: seq<byte>, v: seq<byte>)
    requires GoodTop(o, h)
    ensures MapOf(Some(TI.Insert(o, k, v))) == MapOf(o)[k := v]
    ensures InsertFits(o, k, v) ==> Good(TI.Insert(o, k, v), HeightAfter(o, h, k, v))
  {
    if o.Some? {
      TI.InsertCorrect(o.value, h, k, v);
    } else {
      assert AsMap([KV(k, v)][1..]) == map[];
    }
  }

  lemma DeleteKeeps(o: Option<Tree>, h: nat, k: seq<byte>)
    requires GoodTop(o, h)
    ensures var (found, o') := TD.Delete(o, k);
            && (found <==> k in MapOf(o)) && (!found ==> o' == o)
            && MapOf(o') == MapOf(o) - {k}
            && (DeleteFits(o, k) ==> GoodTop(o', h))
  {
    if o.Some? {
      TD.DeleteCorrect(o.value, h, k);
    }
  }

  /** The child that a lookup descends to. */
  lemma Descend(q: PTree, key: seq<byte>)
    requires q.body.BInner? && Full(Shape(q.body))
    ensures var es := NodeOf(q.body).entries;
            var idx := LookupLE(EntryKeys(es), key);
            && idx < |es| == |q.body.kids|
            && es[idx].ptr == q.body.kids[idx].ptr
            && Full(Shape(q.body.kids[idx].body))
            && GetNode(Shape(q.body), key) == GetNode(Shape(q.body.kids[idx].body), key)
            && Ptrs(q.body.kids[idx]) <= Ptrs(q)
  {
    NodeOfShape(q.body);
    var idx := LookupLE(KeysOf(Shape(q.body)), key);
    PtrsKid(q.body.kids, idx);
    assert Shape(q.body).kids[idx] == Shape(q.body.kids[idx].body);
  }

  lemma AtLeaf(b: Body, key: seq<byte>)
    requires b.BLeaf? && b.kvs != []
    ensures var es := NodeOf(b).entries;
            var idx := LookupLE(EntryKeys(es), key);
            && idx < |es|
            && GetNode(Shape(b), key) == if es[idx].key == key then Some(es[idx].val) else None
  {
    NodeOfShape(b);
  }

  /** `q` is on the way from `p` to the leaf that holds the key, if any does. */
  ghost predicate OnTheWay(pages: map<nat, Node>, p: PTree, q: PTree, key: seq<byte>) {
    && Stored(pages, q) && Full(Shape(q.body)) && Ptrs(q) <= Ptrs(p) && q.ptr in Ptrs(p)
    && GetNode(Shape(q.body), key) == GetNode(Shape(p.body), key)
  }

  lemma FurtherDown(pages: map<nat, Node>, p: PTree, q: PTree, key: seq<byte>)
    requires OnTheWay(pages, p, q, key) && q.body.BInner?
    ensures var es := NodeOf(q.body).entries;
            var idx := LookupLE(EntryKeys(es), key);
            && idx < |es| == |q.body.kids| && es[idx].ptr == q.body.kids[idx].ptr
            && OnTheWay(pages, p, q.body.kids[idx], key)
  {
    Descend(q, key);
    var kid := q.body.kids[LookupLE(EntryKeys(NodeOf(q.body).entries), key)];
    assert kid.ptr in Ptrs(kid);
  }

  /** Get's loop, from any stored root whose pages may still be read. */
  method GetFrom(store: PageStore, ptr: nat, ghost p: PTree, key: seq<byte>) returns (r: Option<seq<byte>>)
    requires ptr == p.ptr && Stored(store.pages, p) && Full(Shape(p.body)) && Sorted(Flat(Shape(p.body)))
    requires forall x :: x in Ptrs(p) ==> x in store.live || x in store.pinned
    ensures r == Find(Flat(Shape(p.body)), key)
  {
    GetCorrect(Shape(p.body), key);
    ghost var q := p;
    assert p.ptr in Ptrs(p);
    var node := store.GetPage(ptr);
    while !node.leaf
      invariant OnTheWay(store.pages, p, q, key) && node == NodeOf(q.body)
      decreases q
    {
      var idx := LookupLE(EntryKeys(node.entries), key);
      FurtherDown(store.pages, p, q, key);
      q := q.body.kids[idx];
      node := store.GetPage(node.entries[idx].ptr);
    }
    AtLeaf(q.body, key);
    var idx := LookupLE(EntryKeys(node.entries), key);
    r := if node.entries[idx].key == key then Some(node.entries[idx].val) else None;
  }

  /** The end of Insert: pages for the pieces of the root, under a new root if there are several. */
  method InstallRoot(store: PageStore, node: Node, ghost b: Body) returns (ok: bool, root: nat, ghost p: PTree)
    requires node == NodeOf(b) && Placed(store, [], Kids(b), multiset{})
    modifies store`pages, store`live
    ensures Kept(old(store.pages), store, multiset{})
    ensures var t := RootShape(TI.Split3(Shape(b)));
            && (ok <==> TI.PiecesFit(Shape(b)) && NBytes(t) <= PAGE_SIZE)
            && (ok ==> && store.Valid() && root == p.ptr && Shape(p.body) == t && Stored(store.pages, p)
                       && multiset(store.live) == Ptrs(p))
  {
    var split := NodeSplit3(node);
    SplitBodies(b);
    ok := PiecesOk(split, b);
    root, p := 0, At(0, b);
    if ok {
      ok, root, p := AllocRoot(store, split, BodySplit3(b));
    }
  }

  ghost function RootShape(pieces: seq<Tree>): Tree
    requires pieces != []
  {
    if |pieces| > 1 then Inner(pieces) else pieces[0]
  }

  method AllocRoot(store: PageStore, split: seq<Node>, ghost bodies: seq<Body>)
    returns (ok: bool, root: nat, ghost p: PTree)
    requires |split| == |bodies| > 0
    requires forall i :: 0 <= i < |split| ==> split[i] == NodeOf(bodies[i]) && NodeBytes(split[i].entries) <= PAGE_SIZE
    requires Placed(store, [], AllKids(bodies), multiset{})
    modifies store`pages, store`live
    ensures Kept(old(store.pages), store, multiset{})
    ensures var t := RootShape(BodyShapes(bodies));
            && (ok <==> NBytes(t) <= PAGE_SIZE)
            && (ok ==> && store.Valid() && root == p.ptr && Shape(p.body) == t && Stored(store.pages, p)
                       && multiset(store.live) == Ptrs(p))
  {
    if |split| > 1 {
      ok, root, p := RootAbove(store, split, bodies);
    } else {
      AllKids1(bodies[0]);
      NodeOfShape(bodies[0]);
      assert bodies == [bodies[0]];
      ok := true;
      root := AllocOne(store, split[0], bodies[0], multiset{});
      p := At(root, bodies[0]);
    }
  }

  method RootAbove(store: PageStore, split: seq<Node>, ghost bodies: seq<Body>)
    returns (ok: bool, root: nat, ghost p: PTree)
    requires |split| == |bodies|
    requires forall i :: 0 <= i < |split| ==> split[i] == NodeOf(bodies[i]) && NodeBytes(split[i].entries) <= PAGE_SIZE
    requires Placed(store, [], AllKids(bodies), multiset{})
    modifies store`pages, store`live
    ensures Kept(old(store.pages), store, multiset{})
    ensures ok <==> NBytes(Inner(BodyShapes(bodies))) <= PAGE_SIZE
    ensures ok ==> && store.Valid() && root == p.ptr && Shape(p.body) == Inner(BodyShapes(bodies))
                   && Stored(store.pages, p) && multiset(store.live) == Ptrs(p)
  {
    ghost var before := store.pages;
    var entries, kids := AllocAll(store, split, bodies, multiset{});
    ghost var b := BInner(kids);
    NodeOfShape(b);
    assert NodeOf(b) == Node(false, entries);
    assert Shape(b) == Inner(BodyShapes(bodies));
    ok := NodeBytes(entries) <= PAGE_SIZE;
    root, p := 0, At(0, b);
    if ok {
      ghost var mid := store.pages;
      root := AllocOne(store, Node(false, entries), b, multiset{});
      p := At(root, b);
      AgreeTrans(before, mid, store.pages, multiset{} + multiset(store.pinned));
    }
  }

  /** A tree with its root page, or no tree: what the root pointer and the live pages say. */
  ghost predicate Rooted(store: PageStore, root: nat, top: Option<PTree>)
    reads store
  {
    && store.Valid()
    && (root == 0 <==> top.None?)
    && (top.None? ==> store.live == {})
    && (top.Some? ==> && root == top.value.ptr && Stored(store.pages, top.value)
                      && multiset(store.live) == Ptrs(top.value))
  }

  /** The end of Delete: the old root page goes; an emptied tree has no root. */
  method ReplaceRoot(store: PageStore, oldRoot: nat, node: Node, ghost b: Body)
    returns (root: nat, ghost top: Option<PTree>)
    requires node == NodeOf(b) && Placed(store, [], Kids(b), multiset{oldRoot})
    requires NBytes(Shape(b)) <= PAGE_SIZE
    modifies store`pages, store`live
    ensures Rooted(store, root, top) && Kept(old(store.pages), store, multiset{})
    ensures if Count(Shape(b)) == 0 then top.None? else top.Some? && top.value.body == b
  {
    Accounted(store.live, PtrsAll(Kids(b)), oldRoot);
    store.DelPage(oldRoot);
    NodeOfShape(b);
    if node.entries == [] {
      root, top := 0, None;
      NothingLive(store.live);
    } else {
      root := AllocOne(store, node, b, multiset{});
      top := Some(At(root, b));
      assert root in multiset(store.live);
    }
  }

  lemma NothingLive(live: set<nat>)
    requires multiset(live) == multiset{}
    ensures live == {}
  {
    forall x ensures x !in live {
      assert multiset(live)[x] == 0;
    }
  }

  ghost function ShapeOf(top: Option<PTree>): Option<Tree> {
    if top.None? then None else Some(Shape(top.value.body))
  }

  method DeleteRooted(store: PageStore, root: nat, ghost p: PTree, ghost h: nat, key: seq<byte>)
    returns (found: bool, ok: bool, root': nat, ghost top': Option<PTree>)
    requires Rooted(store, root, Some(p)) && Good(Shape(p.body), h)
    modifies store`pages, store`live
    ensures Kept(old(store.pages), store, multiset{})
    ensures found <==> TD.DeleteNode(Shape(p.body), key).Some?
    ensures !found ==> && store.pages == old(store.pages) && store.live == old(store.live)
                       && root' == root && top' == Some(p)
    ensures ok <==> TD.DeleteFits(Shape(p.body), key)
    ensures ok ==> Rooted(store, root', top') && ShapeOf(top') == TD.Delete(Some(Shape(p.body)), key).1
  {
    Accounted(store.live, PtrsAll(Kids(p.body)), root);
    var node := store.GetPage(root);
    ghost var b;
    found, ok, node, b := DeleteFrom(store, node, p.body, h, key, multiset{root});
    AgreeSub(old(store.pages), store.pages,
             multiset{root} + multiset(store.pinned), multiset{} + multiset(store.pinned));
    root', top' := root, Some(p);
    if found && ok {
      ghost var mid := store.pages;
      root', top' := ReplaceRoot(store, root, node, b);
      AgreeTrans(old(store.pages), mid, store.pages, multiset{} + multiset(store.pinned));
    }
  }

  method InsertRooted(store: PageStore, root: nat, ghost p: PTree, ghost h: nat, key: seq<byte>, val: seq<byte>)
    returns (ok: bool, root': nat, ghost p': PTree)
    requires Rooted(store, root, Some(p)) && Good(Shape(p.body), h)
    modifies store`pages, store`live
    ensures Kept(old(store.pages), store, multiset{})
    ensures ok <==> TI.InsertRootFits(Shape(p.body), key, val)
    ensures ok ==> Rooted(store, root', Some(p')) && Shape(p'.body) == TI.InsertRoot(Shape(p.body), key, val)
  {
    Accounted(store.live, PtrsAll(Kids(p.body)), root);
    var node := store.GetPage(root);
    store.DelPage(root);
    ghost var b;
    root', p' := root, p;
    ok, node, b := InsertInto(store, node, p.body, key, val, multiset{});
    if ok {
      ghost var mid := store.pages;
      ok, root', p' := InstallRoot(store, node, b);
      AgreeTrans(old(store.pages), mid, store.pages, multiset{} + multiset(store.pinned));
      assert ok ==> root' in multiset(store.live);
    }
    SplitRoot(Shape(p.body), key, val);
  }

  lemma SplitRoot(t: Tree, k: seq<byte>, v: seq<byte>)
    ensures var n := TI.InsertNode(t, k, v);
            && TI.InsertRoot(t, k, v) == RootShape(TI.Split3(n))
            && (TI.InsertRootFits(t, k, v)
                <==> TI.InsertFits(t, k, v) && TI.PiecesFit(n) && NBytes(RootShape(TI.Split3(n))) <= PAGE_SIZE)
  {
  }

  method FirstInsert(store: PageStore, key: seq<byte>, val: seq<byte>)
    returns (ok: bool, root': nat, ghost p': PTree)
    requires Rooted(store, 0, None)
    modifies store`pages, store`live
    ensures Kept(old(store.pages), store, multiset{})
    ensures ok <==> NBytes(Leaf([KV(key, val)])) <= PAGE_SIZE
    ensures ok ==> Rooted(store, root', Some(p')) && Shape(p'.body) == Leaf([KV(key, val)])
  {
    var node := Node(true, [Entry(0, key, val)]);
    ghost var b := BLeaf([KV(key, val)]);
    assert NodeOf(b) == node;
    NodeOfShape(b);
    root', p' := 0, At(0, b);
    ok := NodeBytes(node.entries) <= PAGE_SIZE;
    if ok {
      root' := AllocOne(store, node, b, multiset{});
      p' := At(root', b);
      assert root' in multiset(store.live);
    }
  }

  class BTree {
    const store: PageStore
    var root: nat
    ghost var top: Option<PTree>
    ghost var height: nat

    ghost function Tree(): Option<Tree>
      reads this
    {
      ShapeOf(top)
    }

    ghost function Contents(): Store
      reads this
    {
      MapOf(Tree())
    }

    /** The pages in use are exactly those of the tree, each referenced once, with the right contents. */
    ghost predicate Consistent()
      reads this, store
    {
      Rooted(store, root, top)
    }

    ghost predicate Valid()
      reads this, store
    {
      Consistent() && GoodTop(Tree(), height)
    }

    constructor (s: PageStore)
      requires s.Valid() && s.live == {}
      ensures Valid() && store == s && Contents() == map[] && top.None?
    {
      store, root, top, height := s, 0, None, 0;
    }

    /**
     Insert. The result is false when a built node does not fit its buffer. Otherwise the key is
     bound, the tree is well formed and the pages in use are exactly those of the tree.
     */
    method Insert(key: seq<byte>, val: seq<byte>) returns (ok: bool)
      requires Valid()
      modifies this, store`pages, store`live
      ensures ok <==> InsertFits(old(Tree()), key, val)
      ensures ok ==> Valid() && Contents() == old(Contents())[key := val]
      ensures ok ==> Tree() == Some(TI.Insert(old(Tree()), key, val))
      ensures Kept(old(store.pages), store, multiset{})
    {
      ghost var t := Tree();
      InsertKeeps(t, height, key, val);
      var r;
      ghost var p;
      if root == 0 {
        ok, r, p := FirstInsert(store, key, val);
      } else {
        ok, r, p := InsertRooted(store, root, top.value, height, key, val);
      }
      root, top, height := r, Some(p), HeightAfter(t, height, key, val);
    }

    /** Delete. An unsuccessful deletion changes no page and frees none. */
    method Delete(key: seq<byte>) returns (found: bool, ok: bool)
      requires Valid()
      modifies this, store`pages, store`live
      ensures found <==> key in old(Contents())
      ensures !found ==> Tree() == old(Tree()) && store.pages == old(store.pages) && store.live == old(store.live)
      ensures ok <==> DeleteFits(old(Tree()), key)
      ensures ok ==> Valid() && Contents() == old(Contents()) - {key}
      ensures ok ==> Tree() == TD.Delete(old(Tree()), key).1
      ensures Kept(old(store.pages), store, multiset{})
    {
      ghost var t := Tree();
      DeleteKeeps(t, height, key);
      if root == 0 {
        return false, true;
      }
      var r;
      ghost var o;
      found, ok, r, o := DeleteRooted(store, root, top.value, height, key);
      root, top := r, o;
    }

    /** Get: the binding of the key, if there is one. */
    method Get(key: seq<byte>) returns (r: Option<seq<byte>>)
      requires Valid()
      ensures r == Lookup(Contents(), key)
    {
      if root == 0 {
        return None;
      }
      assert forall x :: x in Ptrs(top.value) ==> x in multiset(store.live);
      r := GetFrom(store, root, top.value, key);
    }
  }

  function Lookup(m: Store, key: seq<byte>): Option<seq<byte>> {
    if key in m then Some(m[key]) else None
  }

  predicate DeleteFits(o: Option<Tree>, k: seq<byte>) {
    o.Some? ==> TD.DeleteFits(o.value, k)
  }
}
