/** The iterator over the stored tree: SeekLE, Valid, Key, Val and Next on a stack of nodes. */
module Iterators {
  import opened Basics
  import opened Bytes
  import opened Nodes
  import opened Trees
  import opened PagedTrees
  import opened PageStores
  import opened IterFrames
  import opened BPlusTree

  ghost predicate Readable(pages: map<nat, Node>, live: set<nat>, p: PTree) {
    Stored(pages, p) && forall x :: x in Ptrs(p) ==> x in live
  }

  /** The node and the position on the stack stand for the frame. */
  ghost predicate Stands(pages: map<nat, Node>, live: set<nat>, node: Node, pos: nat, p: PTree, f: Frame) {
    && Readable(pages, live, p) && node == NodeOf(p.body)
    && f.t == Shape(p.body) && f.pos == pos
  }

  ghost predicate StandsAll(pages: map<nat, Node>, live: set<nat>, path: seq<Node>, pos: seq<nat>,
                            trail: seq<PTree>, frames: seq<Frame>) {
    && |path| == |pos| == |trail| == |frames|
    && forall i :: 0 <= i < |path| ==> Stands(pages, live, path[i], pos[i], trail[i], frames[i])
  }

  lemma KidReadable(pages: map<nat, Node>, live: set<nat>, p: PTree, i: nat)
    requires Readable(pages, live, p) && p.body.BInner? && i < |p.body.kids|
    ensures Readable(pages, live, p.body.kids[i])
    ensures NodeOf(p.body).entries[i].ptr == p.body.kids[i].ptr && p.body.kids[i].ptr in live
  {
    PtrsKid(p.body.kids, i);
    assert p.body.kids[i].ptr in Ptrs(p.body.kids[i]);
  }

  lemma NodeCounts(b: Body)
    ensures |NodeOf(b).entries| == Count(Shape(b)) && NodeOf(b).leaf == Shape(b).Leaf?
    ensures EntryKeys(NodeOf(b).entries) == KeysOf(Shape(b))
    ensures b.BLeaf? ==> forall i :: 0 <= i < |b.kvs| ==>
              NodeOf(b).entries[i].key == b.kvs[i].key && NodeOf(b).entries[i].val == b.kvs[i].val
  {
    NodeOfShape(b);
  }

  /** SeekLE has pushed `done` and goes on at `q`. */
  ghost predicate Seeking(q: PTree, h: nat, key: seq<byte>, done: seq<Frame>, all: seq<Frame>) {
    && Uniform(Shape(q.body), h) && Full(Shape(q.body))
    && done + SeekFrames(Shape(q.body), h, key) == all
  }

  lemma SeekStep(q: PTree, h: nat, key: seq<byte>, idx: nat, done: seq<Frame>, all: seq<Frame>)
    requires Seeking(q, h, key, done, all) && idx == LookupLE(EntryKeys(NodeOf(q.body).entries), key)
    ensures q.body.BLeaf? ==> done + [Frame(Shape(q.body), h, idx)] == all
    ensures q.body.BInner? ==>
              && h > 0 && idx < |q.body.kids|
              && Seeking(q.body.kids[idx], h - 1, key, done + [Frame(Shape(q.body), h, idx)], all)
  {
    NodeCounts(q.body);
    if q.body.BInner? {
      var kid, f := q.body.kids[idx], Frame(Shape(q.body), h, idx);
      assert Shape(q.body).kids[idx] == Shape(kid.body);
      Assoc(done, [f], SeekFrames(Shape(kid.body), h - 1, key));
    }
  }

  /** Next has pushed `done` and goes on with the first descendants of `q`. */
  ghost predicate Chaining(q: PTree, h: nat, done: seq<Frame>, all: seq<Frame>) {
    && Uniform(Shape(q.body), h) && Full(Shape(q.body))
    && done + Chain(Shape(q.body), h) == all
  }

  lemma ChainStep(q: PTree, h: nat, done: seq<Frame>, all: seq<Frame>)
    requires Chaining(q, h, done, all)
    ensures q.body.BLeaf? ==> done == all
    ensures q.body.BInner? ==>
              && h > 0 && q.body.kids != []
              && Chaining(q.body.kids[0], h - 1, done + [Frame(Shape(q.body.kids[0].body), h - 1, 0)], all)
  {
    if q.body.BInner? {
      var kid := q.body.kids[0];
      assert Shape(q.body).kids[0] == Shape(kid.body);
      Assoc(done, [Frame(Shape(kid.body), h - 1, 0)], Chain(Shape(kid.body), h - 1));
    }
  }

  /** The step to the next child as two updates of the stack and an extension. */
  lemma CrossByUpdates(fs: seq<Frame>, l: nat)
    requires l + 1 < |fs| && fs[l].t.Inner? && fs[l].h > 0 && More(fs[l])
    ensures var f, kid := fs[l].(pos := fs[l].pos + 1), NextKid(fs[l]);
            Cross(fs, l) == fs[l := f][l + 1 := kid] + Chain(kid.t, kid.h)
  {
    var f, kid := fs[l].(pos := fs[l].pos + 1), NextKid(fs[l]);
    assert fs[l := f][l + 1 := kid] == fs[..l] + [f, kid] + fs[l + 2..];
  }

  lemma DeepestIs(fs: seq<Frame>, l: nat)
    requires l < |fs| && More(fs[l]) && forall i :: l < i < |fs| ==> !More(fs[i])
    ensures Deepest(fs, |fs|) == l
  {
  }

  lemma DeepestNone(fs: seq<Frame>)
    requires forall i :: 0 <= i < |fs| ==> !More(fs[i])
    ensures Deepest(fs, |fs|) == -1
  {
  }

  class BIter {
    const store: PageStore
    var path: seq<Node>
    var pos: seq<nat>
    ghost var trail: seq<PTree>
    ghost var frames: seq<Frame>

    ghost predicate Sound()
      reads this, store
    {
      && StandsAll(store.pages, store.live, path, pos, trail, frames)
      && (frames != [] ==> WellFormed(frames))
    }

    ghost predicate Standing()
      reads this, store
    {
      StandsAll(store.pages, store.live, path, pos, trail, frames)
    }

    constructor (s: PageStore)
      ensures Standing() && store == s && frames == []
    {
      store, path, pos, trail, frames := s, [], [], [], [];
    }

    method Push(node: Node, idx: nat, ghost p: PTree, ghost f: Frame)
      requires Standing() && Stands(store.pages, store.live, node, idx, p, f)
      modifies this
      ensures Standing() && frames == old(frames) + [f]
    {
      path, pos, trail, frames := path + [node], pos + [idx], trail + [p], frames + [f];
    }

    /** The loop of SeekLE. */
    method Descend(root: nat, ghost p: PTree, ghost height: nat, key: seq<byte>)
      requires Standing() && frames == [] && root == p.ptr && Readable(store.pages, store.live, p)
      requires Uniform(Shape(p.body), height) && Full(Shape(p.body))
      modifies this
      ensures Standing() && frames == SeekFrames(Shape(p.body), height, key)
    {
      assert p.ptr in Ptrs(p);
      var node := store.GetPage(root);
      ghost var q, h, all := p, height, SeekFrames(Shape(p.body), height, key);
      assert [] + all == all;
      while true
        invariant Standing() && Readable(store.pages, store.live, q) && node == NodeOf(q.body)
        invariant Seeking(q, h, key, frames, all)
        decreases h
      {
        var idx := LookupLE(EntryKeys(node.entries), key);
        SeekStep(q, h, key, idx, frames, all);
        Push(node, idx, q, Frame(Shape(q.body), h, idx));
        if node.leaf {
          return;
        }
        KidReadable(store.pages, store.live, q, idx);
        node := store.GetPage(node.entries[idx].ptr);
        q, h := q.body.kids[idx], h - 1;
      }
    }

    /** Valid. */
    method IsValid() returns (r: bool)
      requires Sound()
      ensures r <==> frames != []
    {
      if |path| == 0 {
        return false;
      }
      NodeCounts(trail[|path| - 1].body);
      assert Stands(store.pages, store.live, path[|path| - 1], pos[|path| - 1], trail[|path| - 1], frames[|path| - 1]);
      r := pos[|pos| - 1] < |path[|path| - 1].entries|;
    }

    /** Key and Val. */
    method Entry() returns (e: KV)
      requires Sound() && frames != []
      ensures e == Here(frames)
    {
      var last := |path| - 1;
      NodeCounts(trail[last].body);
      assert Stands(store.pages, store.live, path[last], pos[last], trail[last], frames[last]);
      e := KV(path[last].entries[pos[last]].key, path[last].entries[pos[last]].val);
    }

    method SetTop(level: nat, p: nat)
      requires Standing() && level < |path|
      modifies this`pos, this`frames
      ensures Standing() && frames == old(frames)[level := old(frames)[level].(pos := p)]
    {
      assert Stands(store.pages, store.live, path[level], pos[level], trail[level], frames[level]);
      pos, frames := pos[level := p], frames[level := frames[level].(pos := p)];
    }

    method Replace(level: nat, node: Node, ghost p: PTree, ghost f: Frame)
      requires Standing() && level < |path| && Stands(store.pages, store.live, node, 0, p, f)
      modifies this
      ensures Standing() && frames == old(frames)[level := f]
    {
      path, pos, trail, frames := path[level := node], pos[level := 0], trail[level := p], frames[level := f];
    }

    /** The first descendants of a node that was just put on the stack. */
    method Append(node: Node, ghost p: PTree, ghost h: nat)
      requires Standing() && Readable(store.pages, store.live, p) && node == NodeOf(p.body)
      requires Uniform(Shape(p.body), h) && Full(Shape(p.body))
      modifies this
      ensures Standing() && frames == old(frames) + Chain(Shape(p.body), h)
    {
      var child := node;
      ghost var q, k, all := p, h, frames + Chain(Shape(p.body), h);
      while !child.leaf
        invariant Standing() && Readable(store.pages, store.live, q) && child == NodeOf(q.body)
        invariant Chaining(q, k, frames, all)
        decreases k
      {
        ChainStep(q, k, frames, all);
        KidReadable(store.pages, store.live, q, 0);
        child := store.GetPage(child.entries[0].ptr);
        q, k := q.body.kids[0], k - 1;
        Push(child, 0, q, Frame(Shape(q.body), k, 0));
      }
      ChainStep(q, k, frames, all);
    }

    /** Next. It gives up where the original would follow a leaf's entry as a child and read page 0 as a node. */
    method Next() returns (ok: bool)
      requires Sound() && frames != []
      modifies this
      ensures Sound() && (ok <==> Advance(old(frames)).Some?)
      ensures if ok then Advance(old(frames)) == Some(frames) else frames == old(frames)
    {
      ok := true;
      var level := Climb();
      if level == |path| - 1 {
        SetTop(level, pos[level] + 1);
      } else if level >= 0 {
        ok := IsInner(level);
        if ok {
          Step(level);
        }
      } else {
        path, pos, trail, frames := [], [], [], [];
      }
      assert ok ==> Advance(old(frames)) == Some(frames);
    }

    /** From the leaf up, the first node that has more. */
    method Climb() returns (level: int)
      requires Standing()
      ensures level == Deepest(frames, |frames|)
    {
      level := |path|;
      while level > 0
        invariant 0 <= level <= |path| && forall i :: level <= i < |frames| ==> !More(frames[i])
      {
        level := level - 1;
        var more := HasMore(level);
        if more {
          DeepestIs(frames, level);
          return;
        }
      }
      DeepestNone(frames);
      level := -1;
    }

    method HasMore(level: nat) returns (more: bool)
      requires Standing() && level < |path|
      ensures more <==> More(frames[level])
    {
      NodeCounts(trail[level].body);
      assert Stands(store.pages, store.live, path[level], pos[level], trail[level], frames[level]);
      more := pos[level] + 1 < |path[level].entries|;
    }

    method IsInner(level: nat) returns (inner: bool)
      requires Sound() && level < |path|
      ensures inner <==> frames[level].h > 0
    {
      NodeCounts(trail[level].body);
      assert Stands(store.pages, store.live, path[level], pos[level], trail[level], frames[level]);
      assert Sane(frames[level]);
      inner := !path[level].leaf;
    }

    /** On to the next child of the node at `level`. */
    method Step(level: nat)
      requires Sound() && level + 1 < |frames| && frames[level].h > 0 && More(frames[level])
      modifies this
      ensures Standing() && frames == Cross(old(frames), level)
    {
      ghost var kid := NextKid(frames[level]);
      var child;
      ghost var q;
      child, q := Child(level);
      CrossByUpdates(frames, level);
      Enter(level, child, q, kid);
      Append(child, q, kid.h);
    }

    method Enter(level: nat, child: Node, ghost q: PTree, ghost kid: Frame)
      requires Standing() && level + 1 < |frames| && Stands(store.pages, store.live, child, 0, q, kid)
      modifies this
      ensures Standing()
      ensures frames == old(frames)[level := old(frames)[level].(pos := old(frames)[level].pos + 1)][level + 1 := kid]
    {
      assert Stands(store.pages, store.live, path[level], pos[level], trail[level], frames[level]);
      SetTop(level, pos[level] + 1);
      Replace(level + 1, child, q, kid);
    }

    method Child(level: nat) returns (child: Node, ghost q: PTree)
      requires Sound() && level < |frames| && frames[level].h > 0 && More(frames[level])
      ensures frames[level].t.Inner? && Sane(NextKid(frames[level]))
      ensures Stands(store.pages, store.live, child, 0, q, NextKid(frames[level]))
    {
      ghost var p := trail[level];
      assert Stands(store.pages, store.live, path[level], pos[level], p, frames[level]);
      NodeCounts(p.body);
      var next := pos[level] + 1;
      KidReadable(store.pages, store.live, p, next);
      q := p.body.kids[next];
      child := store.GetPage(path[level].entries[next].ptr);
    }
  }

  /** The entries of a tree from the greatest key that is at most `key` on, or all of them. */
  ghost function From(t: Option<Tree>, key: seq<byte>): seq<KV> {
    if t.None? then []
    else
      var s := Flat(t.value);
      if s == [] then [] else s[LookupLE(FlatKeys(s), key)..]
  }

  /** Repeated Next from SeekLE goes through these entries. */
  ghost predicate ScanWorks(t: Option<Tree>, h: nat, key: seq<byte>)
    requires GoodTop(t, h)
  {
    t.Some? ==> Yields(Start(t.value, h, key), From(t, key))
  }

  ghost function Start(t: Tree, h: nat, key: seq<byte>): (fs: seq<Frame>)
    requires Good(t, h)
    ensures WellFormed(fs)
  {
    SeekSane(t, h, key);
    SeekFrames(t, h, key)
  }

  /** On trees of at most two levels every scan works. */
  lemma ShallowScanWorks(t: Option<Tree>, h: nat, key: seq<byte>)
    requires GoodTop(t, h) && h <= 1
    ensures ScanWorks(t, h, key)
  {
    if t.Some? {
      ShallowSeekTidy(t.value, h, key);
      ScanIff(t.value, h, key);
    }
  }

  /** SeekLE. */
  method SeekLE(tree: BTree, key: seq<byte>) returns (it: BIter)
    requires tree.Valid()
    ensures fresh(it) && it.Sound() && it.store == tree.store
    ensures it.frames == if tree.top.None? then [] else Start(Shape(tree.top.value.body), tree.height, key)
  {
    it := new BIter(tree.store);
    if tree.root != 0 {
      ghost var p := tree.top.value;
      assert forall x :: x in Ptrs(p) ==> x in multiset(tree.store.live);
      it.Descend(tree.root, p, tree.height, key);
      SeekSane(Shape(p.body), tree.height, key);
    }
  }

  /** Every scan that works collects the entries from the key found on, in order and each once. */
  method Scan(tree: BTree, key: seq<byte>) returns (out: seq<KV>)
    requires tree.Valid() && ScanWorks(tree.Tree(), tree.height, key)
    ensures out == From(tree.Tree(), key)
  {
    var it := SeekLE(tree, key);
    out := Drain(it, From(tree.Tree(), key));
  }

  lemma YieldsStep(fs: seq<Frame>, out: seq<KV>)
    requires fs != [] && WellFormed(fs) && Yields(fs, out)
    ensures out != [] && Here(fs) == out[0] && Advance(fs).Some? && Yields(Advance(fs).value, out[1..])
  {
  }

  lemma MoveFirst(a: seq<KV>, b: seq<KV>)
    requires b != []
    ensures a + [b[0]] + b[1..] == a + b
  {
  }

  method Drain(it: BIter, ghost all: seq<KV>) returns (out: seq<KV>)
    requires it.Sound() && Yields(it.frames, all)
    modifies it
    ensures out == all
  {
    out := [];
    ghost var left := all;
    var ok := it.IsValid();
    while ok
      invariant it.Sound() && (ok <==> it.frames != []) && Yields(it.frames, left) && out + left == all
      decreases |left|
    {
      YieldsStep(it.frames, left);
      var e := it.Entry();
      MoveFirst(out, left);
      out, left := out + [e], left[1..];
      var _ := it.Next();
      ok := it.IsValid();
    }
  }
}
