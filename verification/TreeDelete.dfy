/** treeDelete, shouldMerge, nodeMerge and Delete as functions on trees, and what they keep. */
module TreeDelete {
  import opened Basics
  import opened Bytes
  import opened NodeSize
  import opened Trees

  datatype Merge = NoMerge | MergeLeft | MergeRight

  /** shouldMerge: a node of at most a quarter page joins a sibling if the two fit one page. */
  function ShouldMerge(kids: seq<Tree>, idx: nat, updated: Tree): Merge
    requires idx < |kids|
  {
    MergeWith(kids, idx, NBytes(updated))
  }

  /** Which sibling a child of `b` bytes merges with. */
  function MergeWith(kids: seq<Tree>, idx: nat, b: int): Merge
    requires idx < |kids|
  {
    if b > PAGE_SIZE / 4 then NoMerge
    else if idx > 0 && NBytes(kids[idx - 1]) + b - HEADER <= PAGE_SIZE then MergeLeft
    else if idx + 1 < |kids| && NBytes(kids[idx + 1]) + b - HEADER <= PAGE_SIZE then MergeRight
    else NoMerge
  }

  /** nodeMerge; siblings are of the same kind. */
  function Joined(left: Tree, right: Tree): Tree {
    match (left, right)
    case (Leaf(a), Leaf(b)) => Leaf(a + b)
    case (Inner(a), Inner(b)) => Inner(a + b)
    case _ => left
  }

  /** The parent after child `idx` became `updated`. */
  function Rebuild(kids: seq<Tree>, idx: nat, updated: Tree): Tree
    requires idx < |kids|
  {
    match ShouldMerge(kids, idx, updated)
    case MergeLeft => Inner(kids[..idx - 1] + [Joined(kids[idx - 1], updated)] + kids[idx + 1..])
    case MergeRight => Inner(kids[..idx] + [Joined(updated, kids[idx + 1])] + kids[idx + 2..])
    case NoMerge =>
      if Count(updated) == 0 then Inner([])
      else Inner(kids[..idx] + [updated] + kids[idx + 1..])
  }

  /** treeDelete: None when the key is not there. */
  function DeleteNode(t: Tree, k: seq<byte>): Option<Tree> {
    var idx := LookupLE(KeysOf(t), k);
    match t
    case Leaf(kvs) =>
      if kvs == [] || kvs[idx].key != k then None
      else Some(Leaf(kvs[..idx] + kvs[idx + 1..]))
    case Inner(kids) =>
      if kids == [] then None
      else
        match DeleteNode(kids[idx], k)
        case None => None
        case Some(updated) => Some(Rebuild(kids, idx, updated))
  }

  /** Delete: whether the key was there, and the tree afterwards. */
  function Delete(o: Option<Tree>, k: seq<byte>): (bool, Option<Tree>) {
    if o.None? then (false, None)
    else
      match DeleteNode(o.value, k)
      case None => (false, o)
      case Some(u) => (true, if Count(u) == 0 then None else Some(u))
  }

  /** Every node that the deletion rebuilds fits its page. */
  predicate DeleteFits(t: Tree, k: seq<byte>) {
    DeleteNode(t, k).Some? ==>
      && NBytes(DeleteNode(t, k).value) <= PAGE_SIZE
      && (t.Inner? && t.kids != [] ==> DeleteFits(t.kids[LookupLE(KeysOf(t), k)], k))
  }

  /** An emptied child with a sibling is always merged away. */
  lemma EmptyChildMerges(kids: seq<Tree>, idx: nat, updated: Tree)
    requires idx < |kids| && Count(updated) == 0
    requires KidsFit(Inner(kids))
    ensures ShouldMerge(kids, idx, updated) == NoMerge <==> |kids| == 1
  {
    assert SizesOf(updated) == [];
    assert NBytes(updated) == HEADER;
    if idx > 0 { FitKid(Inner(kids), idx - 1); }
    if idx + 1 < |kids| { FitKid(Inner(kids), idx + 1); }
  }

  // ---------------------------------------------------------------------------------------
  // Contents.
  // ---------------------------------------------------------------------------------------

  lemma JoinedFlat(left: Tree, right: Tree)
    requires left.Leaf? <==> right.Leaf?
    ensures Flat(Joined(left, right)) == Flat(left) + Flat(right)
  {
    if left.Inner? {
      FlatAllConcat(left.kids, right.kids);
    }
  }

  lemma EmptyFlat(t: Tree)
    requires Count(t) == 0
    ensures Flat(t) == []
  {
  }

  ghost predicate SameKind(kids: seq<Tree>, updated: Tree) {
    forall i :: 0 <= i < |kids| ==> (kids[i].Leaf? <==> updated.Leaf?)
  }

  lemma RebuildLeftFlat(kids: seq<Tree>, idx: nat, updated: Tree)
    requires 0 < idx < |kids| && SameKind(kids, updated)
    ensures FlatAll(kids[..idx - 1] + [Joined(kids[idx - 1], updated)] + kids[idx + 1..])
         == FlatAll(kids[..idx]) + Flat(updated) + FlatAll(kids[idx + 1..])
  {
    var a, b, c := kids[..idx - 1], kids[idx - 1], kids[idx + 1..];
    JoinedFlat(b, updated);
    FlatAllConcat(a + [Joined(b, updated)], c);
    FlatAllConcat(a, [Joined(b, updated)]);
    FlatAllOne(Joined(b, updated));
    FlatAllConcat(a, [b]);
    FlatAllOne(b);
    assert kids[..idx] == a + [b];
  }

  lemma RebuildRightFlat(kids: seq<Tree>, idx: nat, updated: Tree)
    requires idx + 1 < |kids| && SameKind(kids, updated)
    ensures FlatAll(kids[..idx] + [Joined(updated, kids[idx + 1])] + kids[idx + 2..])
         == FlatAll(kids[..idx]) + Flat(updated) + FlatAll(kids[idx + 1..])
  {
    var a, b, c := kids[..idx], kids[idx + 1], kids[idx + 2..];
    JoinedFlat(updated, b);
    FlatAllConcat(a + [Joined(updated, b)], c);
    FlatAllConcat(a, [Joined(updated, b)]);
    FlatAllOne(Joined(updated, b));
    FlatAllConcat([b], c);
    FlatAllOne(b);
    assert kids[idx + 1..] == [b] + c;
  }

  lemma RebuildFlat(kids: seq<Tree>, idx: nat, updated: Tree)
    requires idx < |kids| && SameKind(kids, updated)
    requires KidsFit(Inner(kids))
    ensures Flat(Rebuild(kids, idx, updated))
         == FlatAll(kids[..idx]) + Flat(updated) + FlatAll(kids[idx + 1..])
  {
    match ShouldMerge(kids, idx, updated)
    case MergeLeft => RebuildLeftFlat(kids, idx, updated);
    case MergeRight => RebuildRightFlat(kids, idx, updated);
    case NoMerge =>
      if Count(updated) == 0 {
        EmptyChildMerges(kids, idx, updated);
        EmptyFlat(updated);
        assert kids[..idx] == [] && kids[idx + 1..] == [];
      } else {
        FlatAllReplaced(kids, idx, [updated]);
        FlatAllOne(updated);
      }
  }

  lemma LeafDeleteFlat(kvs: seq<KV>, k: seq<byte>)
    requires kvs != [] && Sorted(kvs)
    ensures DeleteNode(Leaf(kvs), k).None? <==> Del(kvs, k) == kvs
    ensures DeleteNode(Leaf(kvs), k).Some? ==> Flat(DeleteNode(Leaf(kvs), k).value) == Del(kvs, k)
  {
    var idx := LookupLE(KeysOf(Leaf(kvs)), k);
    LeafRange(kvs, idx, k);
    var a, b, c := kvs[..idx], [kvs[idx]], kvs[idx + 1..];
    DelBetween(a, b, c, k);
    if kvs[idx].key == k {
      assert Del(b, k) == [];
      assert |a + c| < |kvs|;
    } else {
      assert Del(b, k) == b;
    }
  }

  lemma {:induction false} DeleteNodeKind(t: Tree, k: seq<byte>)
    ensures DeleteNode(t, k).Some? ==> (DeleteNode(t, k).value.Leaf? <==> t.Leaf?)
  {
  }

  lemma {:induction false} DelShrinks(s: seq<KV>, k: seq<byte>)
    ensures k in AsMap(s) <==> Del(s, k) != s
    ensures k !in AsMap(s) <==> |Del(s, k)| == |s|
    ensures |Del(s, k)| <= |s|
  {
    if s != [] && s[0].key != k {
      DelShrinks(s[1..], k);
    }
  }

  lemma UniformKinds(kids: seq<Tree>, h: nat, updated: Tree)
    requires Uniform(Inner(kids), h) && Uniform(updated, h - 1)
    ensures SameKind(kids, updated)
  {
  }

  lemma {:induction false} DeleteNodeUniform(t: Tree, h: nat, k: seq<byte>)
    requires Uniform(t, h)
    ensures DeleteNode(t, k).Some? ==> Uniform(DeleteNode(t, k).value, h)
  {
    if t.Inner? && t.kids != [] {
      var idx := LookupLE(KeysOf(t), k);
      DeleteNodeUniform(t.kids[idx], h - 1, k);
      if DeleteNode(t.kids[idx], k).Some? {
        RebuildUniform(t.kids, h, idx, DeleteNode(t.kids[idx], k).value);
      }
    }
  }

  lemma JoinedUniform(left: Tree, right: Tree, h: nat)
    requires Uniform(left, h) && Uniform(right, h)
    ensures Uniform(Joined(left, right), h)
  {
  }

  lemma RebuildUniform(kids: seq<Tree>, h: nat, idx: nat, updated: Tree)
    requires h > 0 && idx < |kids| && Uniform(Inner(kids), h) && Uniform(updated, h - 1)
    ensures Uniform(Rebuild(kids, idx, updated), h)
  {
    match ShouldMerge(kids, idx, updated)
    case MergeLeft =>
      JoinedUniform(kids[idx - 1], updated, h - 1);
      SpliceUniform(kids, idx - 1, idx + 1, [Joined(kids[idx - 1], updated)], h - 1);
    case MergeRight =>
      JoinedUniform(updated, kids[idx + 1], h - 1);
      SpliceUniform(kids, idx, idx + 2, [Joined(updated, kids[idx + 1])], h - 1);
    case NoMerge => SpliceUniform(kids, idx, idx + 1, [updated], h - 1);
  }

  /** Removing a key from the middle part changes the whole exactly when it changes the part. */
  lemma DelChanges(a: seq<KV>, b: seq<KV>, c: seq<KV>, k: seq<byte>)
    requires Below(a, k) && Above(c, k)
    ensures Del(a + b + c, k) == a + Del(b, k) + c
    ensures Del(a + b + c, k) == a + b + c <==> Del(b, k) == b
  {
    DelBetween(a, b, c, k);
    DelShrinks(b, k);
  }

  lemma RebuildDeletes(kids: seq<Tree>, h: nat, idx: nat, k: seq<byte>, updated: Tree)
    requires Good(Inner(kids), h) && SameKind(kids, updated)
    requires idx == LookupLE(KeysOf(Inner(kids)), k)
    requires Flat(updated) == Del(Flat(kids[idx]), k)
    ensures Flat(Rebuild(kids, idx, updated)) == Del(FlatAll(kids), k)
  {
    ChildRange(kids, idx, k);
    FlatAllAround(kids, idx);
    DelChanges(FlatAll(kids[..idx]), Flat(kids[idx]), FlatAll(kids[idx + 1..]), k);
    RebuildFlat(kids, idx, updated);
  }

  lemma DeleteInChild(kids: seq<Tree>, idx: nat, k: seq<byte>)
    requires Full(Inner(kids)) && Sorted(FlatAll(kids))
    requires idx == LookupLE(KeysOf(Inner(kids)), k)
    ensures Del(FlatAll(kids), k) == FlatAll(kids) <==> Del(Flat(kids[idx]), k) == Flat(kids[idx])
  {
    ChildRange(kids, idx, k);
    FlatAllAround(kids, idx);
    DelChanges(FlatAll(kids[..idx]), Flat(kids[idx]), FlatAll(kids[idx + 1..]), k);
  }

  lemma GoodKid(kids: seq<Tree>, h: nat, idx: nat, k: seq<byte>)
    requires Good(Inner(kids), h) && idx == LookupLE(KeysOf(Inner(kids)), k)
    ensures Good(kids[idx], h - 1)
  {
    ChildRange(kids, idx, k);
    FitKid(Inner(kids), idx);
  }

  /** Deletion removes the key's binding and nothing else, and reports whether there was one. */
  lemma {:induction false} DeleteNodeFlat(t: Tree, h: nat, k: seq<byte>)
    requires Good(t, h)
    ensures DeleteNode(t, k).None? <==> Del(Flat(t), k) == Flat(t)
    ensures DeleteNode(t, k).Some? ==> Flat(DeleteNode(t, k).value) == Del(Flat(t), k)
  {
    match t
    case Leaf(kvs) => LeafDeleteFlat(kvs, k);
    case Inner(kids) =>
      var idx := LookupLE(KeysOf(t), k);
      GoodKid(kids, h, idx, k);
      DeleteNodeFlat(kids[idx], h - 1, k);
      DeleteKinds(kids, h, idx, k);
      DeleteInnerFlat(kids, h, idx, k, DeleteNode(kids[idx], k));
  }

  lemma DeleteKinds(kids: seq<Tree>, h: nat, idx: nat, k: seq<byte>)
    requires Uniform(Inner(kids), h) && idx < |kids|
    ensures DeleteNode(kids[idx], k).Some? ==> SameKind(kids, DeleteNode(kids[idx], k).value)
  {
    DeleteNodeUniform(kids[idx], h - 1, k);
    if DeleteNode(kids[idx], k).Some? {
      UniformKinds(kids, h, DeleteNode(kids[idx], k).value);
    }
  }

  lemma DeleteInnerFlat(kids: seq<Tree>, h: nat, idx: nat, k: seq<byte>, sub: Option<Tree>)
    requires Good(Inner(kids), h) && idx == LookupLE(KeysOf(Inner(kids)), k)
    requires sub.None? <==> Del(Flat(kids[idx]), k) == Flat(kids[idx])
    requires sub.Some? ==> SameKind(kids, sub.value) && Flat(sub.value) == Del(Flat(kids[idx]), k)
    ensures sub.None? <==> Del(FlatAll(kids), k) == FlatAll(kids)
    ensures sub.Some? ==> Flat(Rebuild(kids, idx, sub.value)) == Del(FlatAll(kids), k)
  {
    DeleteInChild(kids, idx, k);
    if sub.Some? {
      RebuildDeletes(kids, h, idx, k, sub.value);
    }
  }

  // ---------------------------------------------------------------------------------------
  // Shape and size.
  // ---------------------------------------------------------------------------------------

  lemma JoinedFull(left: Tree, right: Tree)
    requires left.Leaf? <==> right.Leaf?
    requires Count(left) == 0 || Full(left)
    requires Count(right) == 0 || Full(right)
    requires Count(left) > 0 || Count(right) > 0
    ensures Full(Joined(left, right))
  {
  }

  lemma RebuildFull(kids: seq<Tree>, idx: nat, updated: Tree)
    requires idx < |kids| && AllFull(kids) && SameKind(kids, updated)
    requires Count(updated) == 0 || Full(updated)
    ensures Count(Rebuild(kids, idx, updated)) == 0 || Full(Rebuild(kids, idx, updated))
  {
    match ShouldMerge(kids, idx, updated)
    case MergeLeft =>
      JoinedFull(kids[idx - 1], updated);
      SpliceFull(kids, idx - 1, idx + 1, [Joined(kids[idx - 1], updated)]);
    case MergeRight =>
      JoinedFull(updated, kids[idx + 1]);
      SpliceFull(kids, idx, idx + 2, [Joined(updated, kids[idx + 1])]);
    case NoMerge => SpliceFull(kids, idx, idx + 1, [updated]);
  }

  lemma {:induction false} DeleteNodeFull(t: Tree, h: nat, k: seq<byte>)
    requires Full(t) && Uniform(t, h)
    ensures DeleteNode(t, k).Some? ==>
              var u := DeleteNode(t, k).value; Count(u) == 0 || Full(u)
  {
    if t.Inner? {
      var idx := LookupLE(KeysOf(t), k);
      DeleteNodeFull(t.kids[idx], h - 1, k);
      if DeleteNode(t.kids[idx], k).Some? {
        var u := DeleteNode(t.kids[idx], k).value;
        DeleteNodeUniform(t.kids[idx], h - 1, k);
        UniformKinds(t.kids, h, u);
        RebuildFull(t.kids, idx, u);
      }
    }
  }

  lemma JoinedSizes(left: Tree, right: Tree)
    requires left.Leaf? <==> right.Leaf?
    ensures SizesOf(Joined(left, right)) == SizesOf(left) + SizesOf(right)
  {
    var s := SizesOf(Joined(left, right));
    forall i | 0 <= i < |s| ensures s[i] == (SizesOf(left) + SizesOf(right))[i] { }
  }

  lemma JoinedBytes(left: Tree, right: Tree)
    requires left.Leaf? <==> right.Leaf?
    ensures NBytes(Joined(left, right)) == NBytes(left) + NBytes(right) - HEADER
  {
    JoinedSizes(left, right);
    SumConcat(SizesOf(left), SizesOf(right));
  }

  /**
   A child of at most 1024 bytes joins its left neighbour if the two fit a page of 4096 bytes, else its right
   neighbour if those do.
   */
  lemma MergeWhen(kids: seq<Tree>, idx: nat, updated: Tree)
    requires idx < |kids| && forall i :: 0 <= i < |kids| ==> kids[i].Leaf? == updated.Leaf?
    ensures var left := idx > 0 && NBytes(Joined(kids[idx - 1], updated)) <= 4096;
            var right := idx + 1 < |kids| && NBytes(Joined(updated, kids[idx + 1])) <= 4096;
            ShouldMerge(kids, idx, updated)
            == if NBytes(updated) > 1024 then NoMerge
               else if left then MergeLeft else if right then MergeRight else NoMerge
  {
    if idx > 0 {
      JoinedBytes(kids[idx - 1], updated);
    }
    if idx + 1 < |kids| {
      JoinedBytes(updated, kids[idx + 1]);
    }
  }

  lemma JoinedFit(left: Tree, right: Tree)
    requires (left.Leaf? <==> right.Leaf?) && KidsFit(left) && KidsFit(right)
    ensures KidsFit(Joined(left, right))
  {
  }

  lemma RebuildKidsFit(kids: seq<Tree>, idx: nat, updated: Tree)
    requires idx < |kids| && KidsFit(Inner(kids)) && Fit(updated) && SameKind(kids, updated)
    ensures KidsFit(Rebuild(kids, idx, updated))
  {
    match ShouldMerge(kids, idx, updated)
    case MergeLeft =>
      JoinedBytes(kids[idx - 1], updated);
      JoinedFit(kids[idx - 1], updated);
      SpliceFit(kids, idx - 1, idx + 1, [Joined(kids[idx - 1], updated)]);
    case MergeRight =>
      JoinedBytes(updated, kids[idx + 1]);
      JoinedFit(updated, kids[idx + 1]);
      SpliceFit(kids, idx, idx + 2, [Joined(updated, kids[idx + 1])]);
    case NoMerge => SpliceFit(kids, idx, idx + 1, [updated]);
  }

  lemma LeafDeleteFits(kvs: seq<KV>, i: nat)
    requires i < |kvs| && NBytes(Leaf(kvs)) <= PAGE_SIZE
    ensures NBytes(Leaf(kvs[..i] + kvs[i + 1..])) <= PAGE_SIZE
  {
    var s := SizesOf(Leaf(kvs));
    assert SizesOf(Leaf(kvs[..i] + kvs[i + 1..])) == s[..i] + s[i + 1..];
    SumConcat(s[..i], s[i + 1..]);
    SumSplit(s, i + 1);
    SumStep(s, i);
  }

  lemma {:induction false} DeleteNodeFit(t: Tree, h: nat, k: seq<byte>, u: Tree)
    requires Fit(t) && Uniform(t, h) && DeleteFits(t, k) && DeleteNode(t, k) == Some(u)
    ensures Fit(u)
  {
    if t.Inner? {
      var idx := LookupLE(KeysOf(t), k);
      var kid := DeleteNode(t.kids[idx], k).value;
      DeleteNodeKind(t.kids[idx], k);
      DeleteNodeFit(t.kids[idx], h - 1, k, kid);
      SameKindAsSiblings(t.kids, h, idx, kid);
      RebuildKidsFit(t.kids, idx, kid);
    }
  }

  lemma SameKindAsSiblings(kids: seq<Tree>, h: nat, idx: nat, updated: Tree)
    requires idx < |kids| && Uniform(Inner(kids), h) && (updated.Leaf? <==> kids[idx].Leaf?)
    ensures SameKind(kids, updated)
  {
  }

  /**
   Delete on a good tree: the answer says whether the key was bound, exactly that binding goes
   away, a failed deletion changes nothing, and the tree that remains is good (or gone).
   */
  lemma DeleteCorrect(t: Tree, h: nat, k: seq<byte>)
    requires Good(t, h)
    ensures var (found, o) := Delete(Some(t), k);
            && (found <==> k in AsMap(Flat(t)))
            && (!found ==> o == Some(t))
            && (o.None? ==> AsMap(Flat(t)) - {k} == map[])
            && (o.Some? ==> AsMap(Flat(o.value)) == AsMap(Flat(t)) - {k})
            && (o.Some? && DeleteFits(t, k) ==> Good(o.value, h))
  {
    DeleteNodeFlat(t, h, k);
    DelShrinks(Flat(t), k);
    AsMapDel(Flat(t), k);
    DelSorted(Flat(t), k);
    if DeleteNode(t, k).Some? {
      var u := DeleteNode(t, k).value;
      DeleteNodeUniform(t, h, k);
      DeleteNodeFull(t, h, k);
      if DeleteFits(t, k) {
        DeleteNodeFit(t, h, k, u);
      }
      if Count(u) == 0 {
        EmptyFlat(u);
      }
    }
  }
}
