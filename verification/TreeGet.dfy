/** Get on trees: the descent finds exactly the binding of the key. */
module TreeGet {
  import opened Basics
  import opened Bytes
  import opened Trees

  function Find(s: seq<KV>, k: seq<byte>): Option<seq<byte>> {
    if k in AsMap(s) then Some(AsMap(s)[k]) else None
  }

  function GetNode(t: Tree, k: seq<byte>): Option<seq<byte>> {
    var idx := LookupLE(KeysOf(t), k);
    match t
    case Leaf(kvs) => if kvs != [] && kvs[idx].key == k then Some(kvs[idx].val) else None
    case Inner(kids) => if kids == [] then None else GetNode(kids[idx], k)
  }

  lemma {:induction false} FindBetween(a: seq<KV>, b: seq<KV>, c: seq<KV>, k: seq<byte>)
    requires Below(a, k) && Above(c, k)
    ensures Find(a + b + c, k) == Find(b, k)
  {
    if a != [] {
      LessTotal(a[0].key, k);
      FindBetween(a[1..], b, c, k);
      assert (a + b + c)[1..] == a[1..] + b + c;
    } else if b != [] {
      assert a + b + c == b + c;
      assert (b + c)[1..] == a + b[1..] + c;
      FindBetween(a, b[1..], c, k);
    } else {
      assert a + b + c == c;
      AsMapDom(c, k);
      forall i | 0 <= i < |c| ensures c[i].key != k {
        LessTotal(k, c[i].key);
      }
    }
  }

  /** The descent of Get answers with the binding in the whole tree. */
  lemma {:induction false} GetCorrect(t: Tree, k: seq<byte>)
    requires Full(t) && Sorted(Flat(t))
    ensures GetNode(t, k) == Find(Flat(t), k)
  {
    var idx := LookupLE(KeysOf(t), k);
    match t
    case Leaf(kvs) =>
      LeafRange(kvs, idx, k);
      FindBetween(kvs[..idx], [kvs[idx]], kvs[idx + 1..], k);
      assert AsMap([kvs[idx]]) == map[kvs[idx].key := kvs[idx].val] by { assert [kvs[idx]][1..] == []; }
    case Inner(kids) =>
      ChildRange(kids, idx, k);
      GetCorrect(kids[idx], k);
      FlatAllAround(kids, idx);
      FindBetween(FlatAll(kids[..idx]), Flat(kids[idx]), FlatAll(kids[idx + 1..]), k);
  }
}
