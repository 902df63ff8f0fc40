/**
 The B+tree as a value: what each operation of insert.go and delete.go does to the shape of
 the tree, without page numbers. An inner node's separators are not stored here: they are the
 first keys of its children, and the page layer proves that the stored separators agree.
 */
module Trees {
  import opened Basics
  import opened Bytes
  import opened NodeSize

  datatype KV = KV(key: seq<byte>, val: seq<byte>)

  datatype Tree = Leaf(kvs: seq<KV>) | Inner(kids: seq<Tree>)

  function Count(t: Tree): nat {
    if t.Leaf? then |t.kvs| else |t.kids|
  }

  function FirstKey(t: Tree): seq<byte> {
    match t
    case Leaf(kvs) => if kvs == [] then [] else kvs[0].key
    case Inner(kids) => if kids == [] then [] else FirstKey(kids[0])
  }

  function KeyAt(t: Tree, i: nat): seq<byte>
    requires i < Count(t)
  {
    if t.Leaf? then t.kvs[i].key else FirstKey(t.kids[i])
  }

  function ValAt(t: Tree, i: nat): seq<byte>
    requires i < Count(t)
  {
    if t.Leaf? then t.kvs[i].val else []
  }

  function KeysOf(t: Tree): seq<seq<byte>> {
    seq(Count(t), i requires 0 <= i < Count(t) => KeyAt(t, i))
  }

  function SizesOf(t: Tree): seq<nat> {
    seq(Count(t), i requires 0 <= i < Count(t) => 4 + |KeyAt(t, i)| + |ValAt(t, i)|)
  }

  function NBytes(t: Tree): nat {
    Total(SizesOf(t))
  }

  function Slice(t: Tree, lo: nat, hi: nat): Tree
    requires lo <= hi <= Count(t)
  {
    if t.Leaf? then Leaf(t.kvs[lo..hi]) else Inner(t.kids[lo..hi])
  }

  lemma SizesOfSlice(t: Tree, lo: nat, hi: nat)
    requires lo <= hi <= Count(t)
    ensures SizesOf(Slice(t, lo, hi)) == SizesOf(t)[lo..hi]
  {
  }

  // ---------------------------------------------------------------------------------------
  // What a tree holds: its bindings from left to right.
  // ---------------------------------------------------------------------------------------

  function Flat(t: Tree): seq<KV> {
    match t
    case Leaf(kvs) => kvs
    case Inner(kids) => FlatAll(kids)
  }

  function FlatAll(kids: seq<Tree>): seq<KV> {
    if kids == [] then [] else Flat(kids[0]) + FlatAll(kids[1..])
  }

  lemma TailOfConcat<T>(a: seq<T>, b: seq<T>)
    requires a != []
    ensures (a + b)[0] == a[0] && (a + b)[1..] == a[1..] + b
  {
  }

  lemma {:induction false} FlatAllConcat(a: seq<Tree>, b: seq<Tree>)
    ensures FlatAll(a + b) == FlatAll(a) + FlatAll(b)
  {
    if a == [] {
      assert a + b == b;
    } else {
      FlatAllConcat(a[1..], b);
      TailOfConcat(a, b);
    }
  }

  lemma FlatAllOne(t: Tree)
    ensures FlatAll([t]) == Flat(t)
  {
    assert [t][1..] == [];
  }

  lemma Around<T>(s: seq<T>, i: nat)
    requires i < |s|
    ensures s == s[..i] + [s[i]] + s[i + 1..]
  {
  }

  lemma FlatAllTwo(a: Tree, b: Tree)
    ensures FlatAll([a, b]) == Flat(a) + Flat(b)
  {
    FlatAllConcat([a], [b]);
    FlatAllOne(a);
    FlatAllOne(b);
    assert [a, b] == [a] + [b];
  }

  lemma FlatAllAround(kids: seq<Tree>, i: nat)
    requires i < |kids|
    ensures FlatAll(kids) == FlatAll(kids[..i]) + Flat(kids[i]) + FlatAll(kids[i + 1..])
  {
    Around(kids, i);
    FlatAllReplaced(kids, i, [kids[i]]);
    FlatAllOne(kids[i]);
  }

  lemma FlatAllReplaced(kids: seq<Tree>, i: nat, mid: seq<Tree>)
    requires i < |kids|
    ensures FlatAll(kids[..i] + mid + kids[i + 1..])
         == FlatAll(kids[..i]) + FlatAll(mid) + FlatAll(kids[i + 1..])
  {
    FlatAllConcat(kids[..i] + mid, kids[i + 1..]);
    FlatAllConcat(kids[..i], mid);
  }

  lemma FlatSlices(t: Tree, i: nat)
    requires i <= Count(t)
    ensures Flat(Slice(t, 0, i)) + Flat(Slice(t, i, Count(t))) == Flat(t)
  {
    if t.Inner? {
      FlatAllConcat(t.kids[..i], t.kids[i..]);
      assert t.kids == t.kids[..i] + t.kids[i..];
      assert t.kids[0..i] == t.kids[..i] && t.kids[i..|t.kids|] == t.kids[i..];
    } else {
      assert t.kvs == t.kvs[..i] + t.kvs[i..];
    }
  }

  // ---------------------------------------------------------------------------------------
  // The structural invariant.
  // ---------------------------------------------------------------------------------------

  /** Every leaf is at depth `h`. */
  ghost predicate Uniform(t: Tree, h: nat) {
    match t
    case Leaf(_) => h == 0
    case Inner(kids) => h > 0 && forall i :: 0 <= i < |kids| ==> Uniform(kids[i], h - 1)
  }

  ghost predicate AllUniform(kids: seq<Tree>, h: nat) {
    forall i :: 0 <= i < |kids| ==> Uniform(kids[i], h)
  }

  /** No node is empty. */
  ghost predicate Full(t: Tree) {
    match t
    case Leaf(kvs) => kvs != []
    case Inner(kids) => kids != [] && forall i :: 0 <= i < |kids| ==> Full(kids[i])
  }

  ghost predicate AllFull(kids: seq<Tree>) {
    forall i :: 0 <= i < |kids| ==> Full(kids[i])
  }

  /** Every node fits a page. */
  ghost predicate Fit(t: Tree) {
    && NBytes(t) <= PAGE_SIZE
    && (t.Inner? ==> forall i :: 0 <= i < |t.kids| ==> Fit(t.kids[i]))
  }

  ghost predicate KidsFit(t: Tree) {
    t.Inner? ==> AllFit(t.kids)
  }

  ghost predicate AllFit(kids: seq<Tree>) {
    forall i :: 0 <= i < |kids| ==> Fit(kids[i])
  }

  /** Where the children of a spliced list come from. */
  lemma SpliceIndex(kids: seq<Tree>, i: nat, j: nat, mid: seq<Tree>)
    requires i <= j <= |kids|
    ensures var r := kids[..i] + mid + kids[j..];
            && (forall n :: 0 <= n < |r| ==>
                  r[n] == if n < i then kids[n] else if n < i + |mid| then mid[n - i] else kids[n - |mid| - i + j])
            && (forall n :: 0 <= n < |mid| ==> r[i + n] == mid[n])
  {
  }

  lemma SpliceUniform(kids: seq<Tree>, i: nat, j: nat, mid: seq<Tree>, h: nat)
    requires i <= j <= |kids| && AllUniform(kids, h) && AllUniform(mid, h)
    ensures AllUniform(kids[..i] + mid + kids[j..], h)
  {
    SpliceIndex(kids, i, j, mid);
  }

  lemma SpliceFull(kids: seq<Tree>, i: nat, j: nat, mid: seq<Tree>)
    requires i <= j <= |kids| && AllFull(kids)
    ensures AllFull(kids[..i] + mid + kids[j..]) <==> AllFull(mid)
  {
    SpliceIndex(kids, i, j, mid);
  }

  lemma SpliceFit(kids: seq<Tree>, i: nat, j: nat, mid: seq<Tree>)
    requires i <= j <= |kids| && AllFit(kids) && AllFit(mid)
    ensures AllFit(kids[..i] + mid + kids[j..])
  {
    SpliceIndex(kids, i, j, mid);
  }

  lemma FitKid(t: Tree, i: nat)
    requires t.Inner? && KidsFit(t) && i < |t.kids|
    ensures NBytes(t.kids[i]) <= PAGE_SIZE && KidsFit(t.kids[i])
  {
    assert Fit(t.kids[i]);
  }

  ghost predicate Sorted(s: seq<KV>) {
    forall i, j :: 0 <= i < j < |s| ==> Less(s[i].key, s[j].key)
  }

  /** The invariant of every tree that a run can reach. */
  ghost predicate Good(t: Tree, h: nat) {
    Uniform(t, h) && Full(t) && Fit(t) && Sorted(Flat(t))
  }

  ghost predicate Below(s: seq<KV>, k: seq<byte>) {
    forall i :: 0 <= i < |s| ==> Less(s[i].key, k)
  }

  ghost predicate Above(s: seq<KV>, k: seq<byte>) {
    forall i :: 0 <= i < |s| ==> Less(k, s[i].key)
  }

  lemma {:induction false} FullFirst(t: Tree)
    requires Full(t)
    ensures Flat(t) != [] && Flat(t)[0].key == FirstKey(t)
  {
    if t.Inner? {
      FullFirst(t.kids[0]);
    }
  }

  lemma SortedParts(a: seq<KV>, b: seq<KV>)
    requires Sorted(a + b)
    ensures Sorted(a) && Sorted(b)
    ensures forall i, j :: 0 <= i < |a| && 0 <= j < |b| ==> Less(a[i].key, b[j].key)
  {
    var s := a + b;
    assert forall i :: 0 <= i < |a| ==> a[i] == s[i];
    assert forall j :: 0 <= j < |b| ==> b[j] == s[|a| + j];
  }

  // ---------------------------------------------------------------------------------------
  // nodeLookupLE: the last position whose key is at most `k`, or 0 when there is none.
  // ---------------------------------------------------------------------------------------

  function LookupLE(keys: seq<seq<byte>>, k: seq<byte>): (r: nat)
    ensures keys != [] ==> r < |keys|
    ensures r > 0 ==> r < |keys| && !Less(k, keys[r])
    ensures forall j :: r < j < |keys| ==> Less(k, keys[j])
  {
    if |keys| <= 1 then 0
    else if !Less(k, keys[|keys| - 1]) then |keys| - 1
    else LookupLE(keys[..|keys| - 1], k)
  }

  /** The child found by the lookup is the only one that can hold the key. */
  lemma ChildRange(kids: seq<Tree>, idx: nat, k: seq<byte>)
    requires kids != [] && AllFull(kids) && Sorted(FlatAll(kids))
    requires idx == LookupLE(KeysOf(Inner(kids)), k)
    ensures Below(FlatAll(kids[..idx]), k)
    ensures Above(FlatAll(kids[idx + 1..]), k)
    ensures Sorted(Flat(kids[idx]))
  {
    var a, b, c := FlatAll(kids[..idx]), Flat(kids[idx]), FlatAll(kids[idx + 1..]);
    FlatAllAround(kids, idx);
    SortedParts(a + b, c);
    SortedParts(a, b);
    if idx > 0 {
      FullFirst(kids[idx]);
      BelowFirst(a, b, k);
    } else {
      assert kids[..idx] == [];
    }
    if idx + 1 < |kids| {
      FullFirst(kids[idx + 1]);
      assert kids[idx + 1..][0] == kids[idx + 1];
      assert KeysOf(Inner(kids))[idx + 1] == FirstKey(kids[idx + 1]);
      AboveFirst(c, k);
    }
  }

  lemma BelowFirst(a: seq<KV>, b: seq<KV>, k: seq<byte>)
    requires b != [] && !Less(k, b[0].key)
    requires forall i, j :: 0 <= i < |a| && 0 <= j < |b| ==> Less(a[i].key, b[j].key)
    ensures Below(a, k)
  {
    LessTotal(k, b[0].key);
    forall i | 0 <= i < |a| ensures Less(a[i].key, k) {
      if k != b[0].key {
        LessTrans(a[i].key, b[0].key, k);
      }
    }
  }

  lemma AboveFirst(c: seq<KV>, k: seq<byte>)
    requires Sorted(c) && c != [] && Less(k, c[0].key)
    ensures Above(c, k)
  {
    forall i | 0 <= i < |c| ensures Less(k, c[i].key) {
      if i > 0 {
        LessTrans(k, c[0].key, c[i].key);
      }
    }
  }

  /** In a leaf only the position found by the lookup can hold the key. */
  lemma LeafRange(kvs: seq<KV>, idx: nat, k: seq<byte>)
    requires kvs != [] && Sorted(kvs)
    requires idx == LookupLE(KeysOf(Leaf(kvs)), k)
    ensures Below(kvs[..idx], k) && Above(kvs[idx + 1..], k)
    ensures kvs == kvs[..idx] + [kvs[idx]] + kvs[idx + 1..]
  {
    LeafBelow(kvs, idx, k);
    LeafAbove(kvs, idx, k);
    Around(kvs, idx);
  }

  lemma LeafBelow(kvs: seq<KV>, idx: nat, k: seq<byte>)
    requires kvs != [] && Sorted(kvs) && idx == LookupLE(KeysOf(Leaf(kvs)), k)
    ensures Below(kvs[..idx], k)
  {
    if idx > 0 {
      assert KeysOf(Leaf(kvs))[idx] == kvs[idx].key;
      LessTotal(k, kvs[idx].key);
      forall j | 0 <= j < idx ensures Less(kvs[j].key, k) {
        if kvs[idx].key != k {
          LessTrans(kvs[j].key, kvs[idx].key, k);
        }
      }
    }
  }

  lemma LeafAbove(kvs: seq<KV>, idx: nat, k: seq<byte>)
    requires kvs != [] && idx == LookupLE(KeysOf(Leaf(kvs)), k)
    ensures Above(kvs[idx + 1..], k)
  {
    forall j | idx < j < |kvs| ensures Less(k, kvs[j].key) {
      assert KeysOf(Leaf(kvs))[j] == kvs[j].key;
    }
  }

  // ---------------------------------------------------------------------------------------
  // The plain ordered list that the tree implements.
  // ---------------------------------------------------------------------------------------

  function Ins(s: seq<KV>, k: seq<byte>, v: seq<byte>): seq<KV> {
    if s == [] || Less(k, s[0].key) then [KV(k, v)] + s
    else if s[0].key == k then [KV(k, v)] + s[1..]
    else [s[0]] + Ins(s[1..], k, v)
  }

  function Del(s: seq<KV>, k: seq<byte>): seq<KV> {
    if s == [] then []
    else if s[0].key == k then s[1..]
    else [s[0]] + Del(s[1..], k)
  }

  function AsMap(s: seq<KV>): map<seq<byte>, seq<byte>> {
    if s == [] then map[] else AsMap(s[1..])[s[0].key := s[0].val]
  }

  lemma {:induction false} AsMapIns(s: seq<KV>, k: seq<byte>, v: seq<byte>)
    ensures AsMap(Ins(s, k, v)) == AsMap(s)[k := v]
  {
    var r := Ins(s, k, v);
    if s != [] && !Less(k, s[0].key) && s[0].key != k {
      AsMapIns(s[1..], k, v);
      assert r[1..] == Ins(s[1..], k, v);
    } else if s == [] || Less(k, s[0].key) {
      assert r[1..] == s;
    } else {
      assert r[1..] == s[1..];
    }
  }

  lemma {:induction false} AsMapDom(s: seq<KV>, k: seq<byte>)
    ensures k in AsMap(s) <==> exists i :: 0 <= i < |s| && s[i].key == k
  {
    if s != [] {
      AsMapDom(s[1..], k);
      if k in AsMap(s[1..]) {
        var i :| 0 <= i < |s[1..]| && s[1..][i].key == k;
        assert s[i + 1].key == k;
      }
      if i :| 0 <= i < |s| && s[i].key == k {
        assert i > 0 ==> s[1..][i - 1].key == k;
      }
    }
  }

  lemma {:induction false} AsMapAt(s: seq<KV>, i: nat)
    requires Sorted(s) && i < |s|
    ensures s[i].key in AsMap(s) && AsMap(s)[s[i].key] == s[i].val
  {
    if i > 0 {
      AsMapAt(s[1..], i - 1);
      LessTotal(s[0].key, s[i].key);
    }
  }

  lemma {:induction false} AsMapDel(s: seq<KV>, k: seq<byte>)
    requires Sorted(s)
    ensures AsMap(Del(s, k)) == AsMap(s) - {k}
  {
    if s != [] {
      AsMapDel(s[1..], k);
      if s[0].key == k {
        AsMapDom(s[1..], k);
        forall i | 0 <= i < |s[1..]| ensures s[1..][i].key != k {
          LessTotal(s[0].key, s[i + 1].key);
        }
      } else {
        assert Del(s, k)[1..] == Del(s[1..], k);
      }
    }
  }

  lemma {:induction false} InsAfterBelow(a: seq<KV>, s: seq<KV>, k: seq<byte>, v: seq<byte>)
    requires Below(a, k)
    ensures Ins(a + s, k, v) == a + Ins(s, k, v)
  {
    if a == [] {
      assert a + s == s;
    } else {
      LessTotal(a[0].key, k);
      InsAfterBelow(a[1..], s, k, v);
      assert (a + s)[1..] == a[1..] + s;
      Assoc([a[0]], a[1..], Ins(s, k, v));
      assert [a[0]] + a[1..] == a;
    }
  }

  lemma {:induction false} InsBeforeAbove(b: seq<KV>, c: seq<KV>, k: seq<byte>, v: seq<byte>)
    requires Above(c, k)
    ensures Ins(b + c, k, v) == Ins(b, k, v) + c
  {
    if b == [] {
      assert b + c == c;
    } else if Less(k, b[0].key) {
      Assoc([KV(k, v)], b, c);
    } else {
      assert (b + c)[1..] == b[1..] + c;
      if b[0].key == k {
        Assoc([KV(k, v)], b[1..], c);
      } else {
        InsBeforeAbove(b[1..], c, k, v);
        Assoc([b[0]], Ins(b[1..], k, v), c);
      }
    }
  }

  lemma InsBetween(a: seq<KV>, b: seq<KV>, c: seq<KV>, k: seq<byte>, v: seq<byte>)
    requires Below(a, k) && Above(c, k)
    ensures Ins(a + b + c, k, v) == a + Ins(b, k, v) + c
  {
    InsAfterBelow(a, b + c, k, v);
    InsBeforeAbove(b, c, k, v);
    Assoc(a, b, c);
    Assoc(a, Ins(b, k, v), c);
  }

  lemma {:induction false} DelAfterBelow(a: seq<KV>, s: seq<KV>, k: seq<byte>)
    requires Below(a, k)
    ensures Del(a + s, k) == a + Del(s, k)
  {
    if a == [] {
      assert a + s == s;
    } else {
      LessTotal(a[0].key, k);
      DelAfterBelow(a[1..], s, k);
      assert (a + s)[1..] == a[1..] + s;
      Assoc([a[0]], a[1..], Del(s, k));
      assert [a[0]] + a[1..] == a;
    }
  }

  lemma {:induction false} DelBeforeAbove(b: seq<KV>, c: seq<KV>, k: seq<byte>)
    requires Above(c, k)
    ensures Del(b + c, k) == Del(b, k) + c
  {
    if b == [] {
      assert b + c == c;
      DelAbsent(c, k);
    } else {
      assert (b + c)[1..] == b[1..] + c;
      DelBeforeAbove(b[1..], c, k);
    }
  }

  lemma DelBetween(a: seq<KV>, b: seq<KV>, c: seq<KV>, k: seq<byte>)
    requires Below(a, k) && Above(c, k)
    ensures Del(a + b + c, k) == a + Del(b, k) + c
  {
    DelAfterBelow(a, b + c, k);
    DelBeforeAbove(b, c, k);
    Assoc(a, b, c);
    Assoc(a, Del(b, k), c);
  }

  lemma {:induction false} DelAbsent(s: seq<KV>, k: seq<byte>)
    requires Above(s, k)
    ensures Del(s, k) == s
  {
    if s != [] {
      LessTotal(k, s[0].key);
      DelAbsent(s[1..], k);
    }
  }

  lemma {:induction false} InsAbove(s: seq<KV>, k: seq<byte>, v: seq<byte>, x: seq<byte>)
    requires Above(s, x) && Less(x, k)
    ensures Above(Ins(s, k, v), x)
  {
    if s != [] && !Less(k, s[0].key) && s[0].key != k {
      InsAbove(s[1..], k, v, x);
    }
  }

  lemma SortedCons(a: KV, s: seq<KV>)
    requires Sorted(s) && Above(s, a.key)
    ensures Sorted([a] + s)
  {
  }

  lemma {:induction false} InsSorted(s: seq<KV>, k: seq<byte>, v: seq<byte>)
    requires Sorted(s)
    ensures Sorted(Ins(s, k, v))
  {
    if s == [] {
    } else if Less(k, s[0].key) {
      forall i | 0 < i < |s| ensures Less(k, s[i].key) {
        LessTrans(k, s[0].key, s[i].key);
      }
      SortedCons(KV(k, v), s);
    } else if s[0].key == k {
      SortedCons(KV(k, v), s[1..]);
    } else {
      LessTotal(s[0].key, k);
      InsSorted(s[1..], k, v);
      InsAbove(s[1..], k, v, s[0].key);
      SortedCons(s[0], Ins(s[1..], k, v));
    }
  }

  lemma {:induction false} DelSorted(s: seq<KV>, k: seq<byte>)
    requires Sorted(s)
    ensures Sorted(Del(s, k))
    ensures forall x: seq<byte> :: Above(s, x) ==> Above(Del(s, k), x)
  {
    if s != [] && s[0].key != k {
      DelSorted(s[1..], k);
      assert Above(s[1..], s[0].key);
      forall x: seq<byte> | Above(s, x) ensures Above(Del(s, k), x) {
        assert Above(s[1..], x);
      }
    }
  }
}
