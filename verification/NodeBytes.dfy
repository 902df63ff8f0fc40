/**
 The byte layout of a node and the code that reads and writes it in place: header, pointer
 array, offset array and packed entries. Positions are 16-bit and wrap around as in the
 original; within buffers of at most 8192 bytes they never do.
 */
module NodeLayout {
  import opened Bytes
  import opened Endian
  import opened NodeSize
  import opened Nodes
  import opened Trees

  const MAX_BUFFER: nat := 8192
  const INTERNAL: nat := 1
  const LEAF: nat := 2

  function Wrap16(x: int): nat {
    x % MAX16
  }

  function U16(b: seq<byte>, pos: nat): nat
    requires pos + 2 <= |b|
  {
    FromLE(b[pos..pos + 2])
  }

  function BType(b: seq<byte>): nat requires |b| >= 4 { U16(b, 0) }

  function NKeys(b: seq<byte>): nat requires |b| >= 4 { U16(b, 2) }

  function PtrPos(idx: nat): nat { Wrap16(HEADER + 8 * idx) }

  function OffsetPos(n: nat, idx: nat): nat { Wrap16(HEADER + 8 * n + 2 * (idx - 1)) }

  function GetPtr(b: seq<byte>, idx: nat): nat
    requires PtrPos(idx) + 8 <= |b|
  {
    FromLE(b[PtrPos(idx)..PtrPos(idx) + 8])
  }

  function GetOffset(b: seq<byte>, idx: nat): nat
    requires |b| >= 4 && (idx > 0 ==> OffsetPos(NKeys(b), idx) + 2 <= |b|)
  {
    if idx == 0 then 0 else U16(b, OffsetPos(NKeys(b), idx))
  }

  function KvPos(b: seq<byte>, idx: nat): nat
    requires |b| >= 4 && (idx > 0 ==> OffsetPos(NKeys(b), idx) + 2 <= |b|)
  {
    Wrap16(HEADER + 8 * NKeys(b) + 2 * NKeys(b) + GetOffset(b, idx))
  }

  /** Position of entry `idx` of a node of `n` entries, by the sizes of the entries before it. */
  function EntryPos(n: nat, es: seq<Entry>, idx: nat): nat
    requires idx <= |es|
  {
    HEADER + 10 * n + Sum(EntrySizes(es)[..idx])
  }

  function KvImage(key: seq<byte>, val: seq<byte>): (r: seq<byte>)
    ensures |r| == 4 + |key| + |val|
  {
    ToLE(|key|, W16) + ToLE(|val|, W16) + key + val
  }

  /** Entry `i` is laid out in a node of `n` entries. */
  ghost predicate HasEntry(b: seq<byte>, n: nat, es: seq<Entry>, i: nat)
    requires i < |es|
  {
    var e := es[i];
    var pos := EntryPos(n, es, i);
    && i < n && e.ptr < MAX64
    && pos + EntryBytes(e) <= |b|
    && b[HEADER + 8 * i..HEADER + 8 * i + 8] == ToLE(e.ptr, W64)
    && b[HEADER + 8 * n + 2 * i..HEADER + 8 * n + 2 * i + 2] == ToLE(EntryPos(n, es, i + 1) - HEADER - 10 * n, W16)
    && b[pos..pos + EntryBytes(e)] == KvImage(e.key, e.val)
  }

  /** The buffer has a header for `n` entries, and `es` are the first ones laid out. */
  ghost predicate Holds(b: seq<byte>, tag: nat, n: nat, es: seq<Entry>) {
    && tag < MAX16 && |es| <= n
    && HEADER + 10 * n + Sum(EntrySizes(es)) <= |b| <= MAX_BUFFER
    && b[0..2] == ToLE(tag, W16) && b[2..4] == ToLE(n, W16)
    && forall i :: 0 <= i < |es| ==> HasEntry(b, n, es, i)
  }

  /** All entries are there. */
  ghost predicate HoldsNode(b: seq<byte>, tag: nat, es: seq<Entry>) {
    Holds(b, tag, |es|, es)
  }

  lemma SizesOfAppend(es: seq<Entry>, e: Entry)
    ensures EntrySizes(es + [e]) == EntrySizes(es) + [EntryBytes(e)]
    ensures forall i :: 0 <= i <= |es| ==> EntrySizes(es + [e])[..i] == EntrySizes(es)[..i]
    ensures Sum(EntrySizes(es + [e])) == Sum(EntrySizes(es)) + EntryBytes(e)
  {
    var s, t := EntrySizes(es), EntrySizes(es + [e]);
    assert t == s + [EntryBytes(e)];
    assert t[..|t| - 1] == s;
  }

  lemma PrefixSum(es: seq<Entry>, i: nat)
    requires i < |es|
    ensures Sum(EntrySizes(es)[..i + 1]) == Sum(EntrySizes(es)[..i]) + EntryBytes(es[i])
    ensures Sum(EntrySizes(es)[..i + 1]) <= Sum(EntrySizes(es))
    ensures EntrySizes(es)[..|es|] == EntrySizes(es)
  {
    SumStep(EntrySizes(es), i);
    SumSplit(EntrySizes(es), i + 1);
  }

  // ---------------------------------------------------------------------------------------
  // Reading back.
  // ---------------------------------------------------------------------------------------

  lemma HeaderRead(b: seq<byte>, tag: nat, n: nat, es: seq<Entry>)
    requires Holds(b, tag, n, es)
    ensures |b| >= 4 && BType(b) == tag && NKeys(b) == n
  {
    LE16RoundTrip(tag);
    LE16RoundTrip(n);
  }

  /** 16-bit positions do not wrap within a buffer. */
  lemma NoWrap(n: nat, i: nat, sum: nat)
    requires HEADER + 10 * n + sum <= MAX_BUFFER && i <= n
    ensures PtrPos(i) == HEADER + 8 * i
    ensures i > 0 ==> OffsetPos(n, i) == HEADER + 8 * n + 2 * (i - 1)
    ensures Wrap16(HEADER + 8 * n + 2 * n + sum) == HEADER + 10 * n + sum
  {
  }

  lemma OffsetRead(b: seq<byte>, tag: nat, n: nat, es: seq<Entry>, i: nat)
    requires Holds(b, tag, n, es) && 0 < i <= |es|
    ensures HEADER + 8 * n + 2 * i <= |b|
    ensures U16(b, HEADER + 8 * n + 2 * (i - 1)) == Sum(EntrySizes(es)[..i])
  {
    PrefixSum(es, i - 1);
    assert HasEntry(b, n, es, i - 1);
    LE16RoundTrip(Sum(EntrySizes(es)[..i]));
  }

  /** kvPos and getOffset find every entry laid out so far, and the end of the last one. */
  lemma PositionRead(b: seq<byte>, tag: nat, n: nat, es: seq<Entry>, i: nat)
    requires Holds(b, tag, n, es) && i <= |es|
    ensures |b| >= 4 && (i > 0 ==> OffsetPos(NKeys(b), i) + 2 <= |b|)
    ensures GetOffset(b, i) == Sum(EntrySizes(es)[..i])
    ensures KvPos(b, i) == EntryPos(n, es, i) <= |b|
  {
    HeaderRead(b, tag, n, es);
    if i > 0 {
      PrefixSum(es, i - 1);
      NoWrap(n, i, Sum(EntrySizes(es)[..i]));
      OffsetRead(b, tag, n, es, i);
    } else {
      assert Sum(EntrySizes(es)[..0]) == 0;
      NoWrap(n, 0, 0);
    }
  }

  function GetKeyAt(b: seq<byte>, pos: nat): seq<byte>
    requires pos + 2 <= |b| && pos + 4 + U16(b, pos) <= |b|
  {
    b[pos + 4..pos + 4 + U16(b, pos)]
  }

  function GetValAt(b: seq<byte>, pos: nat): seq<byte>
    requires pos + 4 <= |b| && pos + 4 + U16(b, pos) + U16(b, pos + 2) <= |b|
  {
    b[pos + 4 + U16(b, pos)..][..U16(b, pos + 2)]
  }

  lemma KvImageParts(key: seq<byte>, val: seq<byte>)
    ensures var r := KvImage(key, val);
            && r[0..2] == ToLE(|key|, W16) && r[2..4] == ToLE(|val|, W16)
            && r[4..4 + |key|] == key && r[4 + |key|..4 + |key| + |val|] == val
  {
  }

  lemma KvImageRead(b: seq<byte>, pos: nat, key: seq<byte>, val: seq<byte>)
    requires pos + 4 + |key| + |val| <= |b| && |key| < MAX16 && |val| < MAX16
    requires b[pos..pos + 4 + |key| + |val|] == KvImage(key, val)
    ensures U16(b, pos) == |key| && U16(b, pos + 2) == |val|
    ensures GetKeyAt(b, pos) == key && GetValAt(b, pos) == val
  {
    var end := pos + 4 + |key| + |val|;
    KvImageParts(key, val);
    SubSlice(b, pos, end, 0, 2);
    SubSlice(b, pos, end, 2, 4);
    SubSlice(b, pos, end, 4, 4 + |key|);
    SubSlice(b, pos, end, 4 + |key|, 4 + |key| + |val|);
    LE16RoundTrip(|key|);
    LE16RoundTrip(|val|);
    assert b[pos + 4 + |key|..][..|val|] == b[pos + 4 + |key|..end];
  }

  lemma PtrRead(b: seq<byte>, tag: nat, n: nat, es: seq<Entry>, i: nat)
    requires Holds(b, tag, n, es) && i < |es|
    ensures PtrPos(i) + 8 <= |b| && GetPtr(b, i) == es[i].ptr
  {
    assert HasEntry(b, n, es, i);
    LE64RoundTrip(es[i].ptr);
  }

  /** getPtr, getKey and getVal return exactly the entry that was laid out. */
  lemma EntryRead(b: seq<byte>, tag: nat, n: nat, es: seq<Entry>, i: nat)
    requires Holds(b, tag, n, es) && i < |es|
    ensures PtrPos(i) + 8 <= |b| && GetPtr(b, i) == es[i].ptr
    ensures |b| >= 4 && (i > 0 ==> OffsetPos(NKeys(b), i) + 2 <= |b|)
    ensures var pos := KvPos(b, i);
            && pos + 4 + |es[i].key| + |es[i].val| <= |b|
            && U16(b, pos) == |es[i].key| && U16(b, pos + 2) == |es[i].val|
            && GetKeyAt(b, pos) == es[i].key && GetValAt(b, pos) == es[i].val
  {
    PtrRead(b, tag, n, es, i);
    PositionRead(b, tag, n, es, i);
    assert HasEntry(b, n, es, i);
    KvImageRead(b, EntryPos(n, es, i), es[i].key, es[i].val);
  }

  /** nbytes of a complete node is the sum that the tree layer computes with. */
  lemma NBytesRead(b: seq<byte>, tag: nat, es: seq<Entry>)
    requires HoldsNode(b, tag, es)
    ensures |b| >= 4 && NKeys(b) == |es| && (|es| > 0 ==> OffsetPos(NKeys(b), |es|) + 2 <= |b|)
    ensures KvPos(b, NKeys(b)) == NodeBytes(es)
  {
    PositionRead(b, tag, |es|, es, |es|);
    HeaderRead(b, tag, |es|, es);
    assert EntrySizes(es)[..|es|] == EntrySizes(es);
  }

  lemma U16At(b: seq<byte>, p: nat)
    requires p + 2 <= |b|
    ensures U16(b, p) == At16(b, p)
  {
    Read16(b, p);
  }

  lemma HeaderFormat(b: seq<byte>, tag: nat, n: nat, es: seq<Entry>)
    requires Holds(b, tag, n, es)
    ensures 4 + 10 * n <= |b| && At16(b, 0) == tag && At16(b, 2) == n
  {
    HeaderRead(b, tag, n, es);
    U16At(b, 0);
    U16At(b, 2);
  }

  lemma PointerFormat(b: seq<byte>, tag: nat, n: nat, es: seq<Entry>, i: nat)
    requires Holds(b, tag, n, es) && i < |es|
    ensures 12 + 8 * i <= |b| && At64(b, 4 + 8 * i) == es[i].ptr
  {
    PtrRead(b, tag, n, es, i);
    assert HasEntry(b, n, es, i);
    NoWrap(n, i, 0);
    Read64(b, 4 + 8 * i);
  }

  lemma OffsetFormat(b: seq<byte>, tag: nat, n: nat, es: seq<Entry>, i: nat)
    requires Holds(b, tag, n, es) && 0 < i <= |es|
    ensures 4 + 8 * n + 2 * i <= |b| && At16(b, 4 + 8 * n + 2 * (i - 1)) == Sum(EntrySizes(es)[..i])
  {
    OffsetRead(b, tag, n, es, i);
    U16At(b, 4 + 8 * n + 2 * (i - 1));
  }

  lemma EntryFormat(b: seq<byte>, tag: nat, n: nat, es: seq<Entry>, i: nat, pos: nat)
    requires Holds(b, tag, n, es) && i < |es| && pos == EntryPos(n, es, i)
    ensures var k, v := |es[i].key|, |es[i].val|;
            && pos + 4 + k + v <= |b| && At16(b, pos) == k && At16(b, pos + 2) == v
            && b[pos + 4..pos + 4 + k] == es[i].key && b[pos + 4 + k..pos + 4 + k + v] == es[i].val
  {
    EntryRead(b, tag, n, es, i);
    PositionRead(b, tag, n, es, i);
    U16At(b, pos);
    U16At(b, pos + 2);
    ValSlice(b, pos + 4 + |es[i].key|, |es[i].val|);
  }

  /** Entry `i` of a node of `n` entries, byte by byte. */
  predicate EntryAt(b: seq<byte>, n: nat, i: nat, e: Entry)
    requires i < n && 4 + 10 * n <= |b|
  {
    var off := if i == 0 then 0 else At16(b, 4 + 8 * n + 2 * (i - 1));
    var pos, k, v := 4 + 10 * n + off, |e.key|, |e.val|;
    && At64(b, 4 + 8 * i) == e.ptr && At16(b, 4 + 8 * n + 2 * i) == off + 4 + k + v && pos + 4 + k + v <= |b|
    && At16(b, pos) == k && At16(b, pos + 2) == v
    && b[pos + 4..pos + 4 + k] == e.key && b[pos + 4 + k..pos + 4 + k + v] == e.val
  }

  /**
   The format. Two bytes of type and two of count; from byte 4 the pointers, eight bytes each; then for each
   entry two bytes that say where it ends, counted from where the first one begins; then the entries, each with
   the lengths of its key and value in two bytes, the key, and the value.
   */
  lemma NodeFormat(b: seq<byte>, tag: nat, es: seq<Entry>)
    requires HoldsNode(b, tag, es)
    ensures 4 + 10 * |es| <= |b| && At16(b, 0) == tag && At16(b, 2) == |es|
    ensures forall i :: 0 <= i < |es| ==> EntryAt(b, |es|, i, es[i])
  {
    HeaderFormat(b, tag, |es|, es);
    forall i | 0 <= i < |es| ensures EntryAt(b, |es|, i, es[i]) {
      EntryIs(b, tag, |es|, es, i);
    }
  }

  lemma EntryIs(b: seq<byte>, tag: nat, n: nat, es: seq<Entry>, i: nat)
    requires Holds(b, tag, n, es) && i < |es| && 4 + 10 * n <= |b|
    ensures EntryAt(b, n, i, es[i])
  {
    PointerFormat(b, tag, n, es, i);
    Offsets(b, tag, n, es, i);
    EntryFormat(b, tag, n, es, i, EntryPos(n, es, i));
  }

  lemma Offsets(b: seq<byte>, tag: nat, n: nat, es: seq<Entry>, i: nat)
    requires Holds(b, tag, n, es) && i < |es|
    ensures 4 + 8 * n + 2 * i + 2 <= |b|
    ensures var off := if i == 0 then 0 else At16(b, 4 + 8 * n + 2 * (i - 1));
            && EntryPos(n, es, i) == 4 + 10 * n + off
            && At16(b, 4 + 8 * n + 2 * i) == off + 4 + |es[i].key| + |es[i].val|
  {
    OffsetFormat(b, tag, n, es, i + 1);
    if i > 0 {
      OffsetFormat(b, tag, n, es, i);
    } else {
      assert EntrySizes(es)[..0] == [];
    }
    PrefixSum(es, i);
  }

  lemma ValSlice(b: seq<byte>, p: nat, n: nat)
    requires p + n <= |b|
    ensures b[p..][..n] == b[p..p + n]
  {
  }

  // ---------------------------------------------------------------------------------------
  // Writing.
  // ---------------------------------------------------------------------------------------

  /** The bytes that one appended entry overwrites. */
  function AppendImage(b: seq<byte>, n: nat, idx: nat, pos: nat, end: nat, e: Entry): (r: seq<byte>)
    requires idx < n && HEADER + 10 * n <= pos && pos + EntryBytes(e) <= |b|
    ensures |r| == |b|
  {
    var b1 := Patch(b, HEADER + 8 * idx, ToLE(e.ptr, W64));
    var b2 := Patch(b1, pos, KvImage(e.key, e.val));
    Patch(b2, HEADER + 8 * n + 2 * idx, ToLE(end, W16))
  }

  /** An appended entry can be read back at its three places. */
  lemma AppendHits(b: seq<byte>, n: nat, idx: nat, pos: nat, end: nat, e: Entry)
    requires idx < n && HEADER + 10 * n <= pos && pos + EntryBytes(e) <= |b|
    ensures var r := AppendImage(b, n, idx, pos, end, e);
            && r[HEADER + 8 * idx..HEADER + 8 * idx + 8] == ToLE(e.ptr, W64)
            && r[HEADER + 8 * n + 2 * idx..HEADER + 8 * n + 2 * idx + 2] == ToLE(end, W16)
            && r[pos..pos + EntryBytes(e)] == KvImage(e.key, e.val)
  {
    var p, o := HEADER + 8 * idx, HEADER + 8 * n + 2 * idx;
    var b1 := Patch(b, p, ToLE(e.ptr, W64));
    var b2 := Patch(b1, pos, KvImage(e.key, e.val));
    PatchHit(b, p, ToLE(e.ptr, W64));
    PatchMiss(b1, pos, KvImage(e.key, e.val), p, p + 8);
    PatchMiss(b2, o, ToLE(end, W16), p, p + 8);
    PatchHit(b1, pos, KvImage(e.key, e.val));
    PatchMiss(b2, o, ToLE(end, W16), pos, pos + EntryBytes(e));
    PatchHit(b2, o, ToLE(end, W16));
  }

  /** Nothing else changes: header, earlier pointers, earlier offsets, earlier entries. */
  lemma AppendMisses(b: seq<byte>, n: nat, idx: nat, pos: nat, end: nat, e: Entry, lo: nat, hi: nat)
    requires idx < n && HEADER + 10 * n <= pos && pos + EntryBytes(e) <= |b|
    requires lo <= hi <= pos
    requires hi <= HEADER + 8 * idx
          || (HEADER + 8 * n <= lo && hi <= HEADER + 8 * n + 2 * idx)
          || HEADER + 10 * n <= lo
    ensures AppendImage(b, n, idx, pos, end, e)[lo..hi] == b[lo..hi]
  {
    var p, o := HEADER + 8 * idx, HEADER + 8 * n + 2 * idx;
    var b1 := Patch(b, p, ToLE(e.ptr, W64));
    var b2 := Patch(b1, pos, KvImage(e.key, e.val));
    PatchMiss(b, p, ToLE(e.ptr, W64), lo, hi);
    PatchMiss(b1, pos, KvImage(e.key, e.val), lo, hi);
    PatchMiss(b2, o, ToLE(end, W16), lo, hi);
  }

  /** The three places of an entry are as they were. */
  ghost predicate SameEntry(b: seq<byte>, r: seq<byte>, n: nat, es: seq<Entry>, i: nat)
    requires i < |es| && i < n && |r| == |b| && EntryPos(n, es, i) + EntryBytes(es[i]) <= |b|
  {
    var at := EntryPos(n, es, i);
    && r[HEADER + 8 * i..HEADER + 8 * i + 8] == b[HEADER + 8 * i..HEADER + 8 * i + 8]
    && r[HEADER + 8 * n + 2 * i..HEADER + 8 * n + 2 * i + 2] == b[HEADER + 8 * n + 2 * i..HEADER + 8 * n + 2 * i + 2]
    && r[at..at + EntryBytes(es[i])] == b[at..at + EntryBytes(es[i])]
  }

  lemma EntryPosAppend(n: nat, es: seq<Entry>, e: Entry, i: nat)
    requires i <= |es|
    ensures EntryPos(n, es + [e], i) == EntryPos(n, es, i)
  {
    SizesOfAppend(es, e);
  }

  lemma KeptEntry(b: seq<byte>, r: seq<byte>, n: nat, es: seq<Entry>, e: Entry, i: nat)
    requires i < |es| && HasEntry(b, n, es, i) && |r| == |b| && SameEntry(b, r, n, es, i)
    ensures HasEntry(r, n, es + [e], i)
  {
    EntryPosAppend(n, es, e, i);
    EntryPosAppend(n, es, e, i + 1);
    assert (es + [e])[i] == es[i];
  }

  lemma NewEntry(r: seq<byte>, n: nat, es: seq<Entry>, e: Entry)
    requires |es| < n && e.ptr < MAX64
    requires HEADER + 10 * n + Sum(EntrySizes(es)) + EntryBytes(e) <= |r|
    requires var pos := HEADER + 10 * n + Sum(EntrySizes(es));
             && r[HEADER + 8 * |es|..HEADER + 8 * |es| + 8] == ToLE(e.ptr, W64)
             && r[HEADER + 8 * n + 2 * |es|..HEADER + 8 * n + 2 * |es| + 2]
                == ToLE(Sum(EntrySizes(es)) + EntryBytes(e), W16)
             && r[pos..pos + EntryBytes(e)] == KvImage(e.key, e.val)
    ensures HasEntry(r, n, es + [e], |es|)
  {
    SizesOfAppend(es, e);
    assert EntrySizes(es + [e])[..|es| + 1] == EntrySizes(es + [e]);
    assert EntrySizes(es + [e])[..|es|] == EntrySizes(es);
    assert (es + [e])[|es|] == e;
  }

  /** What one append does to the buffer: three places written, all others as before. */
  ghost predicate Appended(b: seq<byte>, r: seq<byte>, n: nat, idx: nat, pos: nat, end: nat, e: Entry) {
    && idx < n && HEADER + 10 * n <= pos && pos + EntryBytes(e) <= |b| == |r|
    && r[HEADER + 8 * idx..HEADER + 8 * idx + 8] == ToLE(e.ptr, W64)
    && r[HEADER + 8 * n + 2 * idx..HEADER + 8 * n + 2 * idx + 2] == ToLE(end, W16)
    && r[pos..pos + EntryBytes(e)] == KvImage(e.key, e.val)
    && (forall lo, hi :: Untouched(n, idx, pos, lo, hi) ==> r[lo..hi] == b[lo..hi])
  }

  predicate Untouched(n: nat, idx: nat, pos: nat, lo: int, hi: int) {
    && 0 <= lo <= hi <= pos
    && (|| hi <= HEADER + 8 * idx
        || (HEADER + 8 * n <= lo && hi <= HEADER + 8 * n + 2 * idx)
        || HEADER + 10 * n <= lo)
  }

  lemma AppendImageAppends(b: seq<byte>, n: nat, idx: nat, pos: nat, end: nat, e: Entry)
    requires idx < n && HEADER + 10 * n <= pos && pos + EntryBytes(e) <= |b|
    ensures Appended(b, AppendImage(b, n, idx, pos, end, e), n, idx, pos, end, e)
  {
    var r := AppendImage(b, n, idx, pos, end, e);
    AppendHits(b, n, idx, pos, end, e);
    forall lo, hi | Untouched(n, idx, pos, lo, hi) ensures r[lo..hi] == b[lo..hi] {
      AppendMisses(b, n, idx, pos, end, e, lo, hi);
    }
  }

  lemma AppendSameEntry(b: seq<byte>, r: seq<byte>, n: nat, es: seq<Entry>, e: Entry, end: nat, i: nat)
    requires i < |es| < n && Appended(b, r, n, |es|, HEADER + 10 * n + Sum(EntrySizes(es)), end, e)
    ensures EntryPos(n, es, i) + EntryBytes(es[i]) <= |b|
    ensures SameEntry(b, r, n, es, i)
  {
    var pos := HEADER + 10 * n + Sum(EntrySizes(es));
    PrefixSum(es, i);
    var at := EntryPos(n, es, i);
    assert Untouched(n, |es|, pos, HEADER + 8 * i, HEADER + 8 * i + 8);
    assert Untouched(n, |es|, pos, HEADER + 8 * n + 2 * i, HEADER + 8 * n + 2 * i + 2);
    assert Untouched(n, |es|, pos, at, at + EntryBytes(es[i]));
  }

  lemma AppendedEntry(b: seq<byte>, tag: nat, n: nat, es: seq<Entry>, e: Entry, r: seq<byte>, i: nat)
    requires Holds(b, tag, n, es) && |es| < n && e.ptr < MAX64 && i <= |es|
    requires Appended(b, r, n, |es|, HEADER + 10 * n + Sum(EntrySizes(es)), Sum(EntrySizes(es)) + EntryBytes(e), e)
    ensures HasEntry(r, n, es + [e], i)
  {
    if i < |es| {
      assert HasEntry(b, n, es, i);
      AppendSameEntry(b, r, n, es, e, Sum(EntrySizes(es)) + EntryBytes(e), i);
      KeptEntry(b, r, n, es, e, i);
    } else {
      NewEntry(r, n, es, e);
    }
  }

  /** Appending entry after entry lays out exactly those entries; later ones never disturb earlier ones. */
  lemma AppendExtends(b: seq<byte>, tag: nat, n: nat, es: seq<Entry>, e: Entry, r: seq<byte>)
    requires Holds(b, tag, n, es) && |es| < n && e.ptr < MAX64
    requires Appended(b, r, n, |es|, HEADER + 10 * n + Sum(EntrySizes(es)), Sum(EntrySizes(es)) + EntryBytes(e), e)
    ensures Holds(r, tag, n, es + [e])
  {
    forall i | 0 <= i < |es| + 1 ensures HasEntry(r, n, es + [e], i) {
      AppendedEntry(b, tag, n, es, e, r, i);
    }
    SizesOfAppend(es, e);
    var pos := HEADER + 10 * n + Sum(EntrySizes(es));
    assert Untouched(n, |es|, pos, 0, 2) && Untouched(n, |es|, pos, 2, 4);
  }

  /** setHeader. */
  method SetHeader(a: array<byte>, tag: nat, n: nat)
    requires tag < MAX16 && HEADER + 10 * n <= a.Length <= 8192
    modifies a
    ensures Holds(a[..], tag, n, [])
  {
    Put(a, 0, ToLE(tag, W16));
    Put(a, 2, ToLE(n, W16));
  }

  /** The positions that nodeAppendKV computes. */
  lemma AppendPositions(b: seq<byte>, tag: nat, n: nat, es: seq<Entry>)
    requires Holds(b, tag, n, es) && |es| < n
    ensures var idx, sum := |es|, Sum(EntrySizes(es));
            && |b| >= 4 && NKeys(b) == n && (idx > 0 ==> OffsetPos(NKeys(b), idx) + 2 <= |b|)
            && GetOffset(b, idx) == sum && KvPos(b, idx) == HEADER + 10 * n + sum
            && PtrPos(idx) == HEADER + 8 * idx && OffsetPos(n, idx + 1) == HEADER + 8 * n + 2 * idx
  {
    PositionRead(b, tag, n, es, |es|);
    HeaderRead(b, tag, n, es);
    assert EntrySizes(es)[..|es|] == EntrySizes(es);
    NoWrap(n, |es| + 1, 0);
    NoWrap(n, |es|, 0);
  }

  /** nodeAppendKV: pointer, lengths, key, value and the offset of the next entry. */
  method AppendKV(a: array<byte>, idx: nat, ptr: nat, key: seq<byte>, val: seq<byte>,
                  ghost tag: nat, ghost n: nat, ghost es: seq<Entry>)
    requires Holds(a[..], tag, n, es) && idx == |es| < n && ptr < MAX64
    requires HEADER + 10 * n + Sum(EntrySizes(es)) + 4 + |key| + |val| <= a.Length
    modifies a
    ensures Holds(a[..], tag, n, es + [Entry(ptr, key, val)])
  {
    ghost var b := a[..];
    WriteAppended(a, idx, ptr, key, val, tag, n, es);
    AppendExtends(b, tag, n, es, Entry(ptr, key, val), a[..]);
  }

  /** The offset behind the new entry, which does not wrap. */
  method EndOffset(offset: nat, key: nat, val: nat, ghost n: nat) returns (end: nat)
    requires HEADER + 10 * n + offset + 4 + key + val <= MAX_BUFFER
    ensures end == offset + 4 + key + val
  {
    end := Wrap16(offset + 4 + key + val);
  }

  method WriteAppended(a: array<byte>, idx: nat, ptr: nat, key: seq<byte>, val: seq<byte>,
                       ghost tag: nat, ghost n: nat, ghost es: seq<Entry>)
    requires Holds(a[..], tag, n, es) && idx == |es| < n
    requires HEADER + 10 * n + Sum(EntrySizes(es)) + 4 + |key| + |val| <= a.Length
    modifies a
    ensures Appended(old(a[..]), a[..], n, idx, HEADER + 10 * n + Sum(EntrySizes(es)),
                     Sum(EntrySizes(es)) + 4 + |key| + |val|, Entry(ptr, key, val))
  {
    var offset, pos, offsetAt := Positions(a, idx, tag, n, es);
    var end := EndOffset(offset, |key|, |val|, n);
    WriteEntry(a, PtrPos(idx), pos, offsetAt, ptr, key, val, end, n, idx);
  }

  method Positions(a: array<byte>, idx: nat, ghost tag: nat, ghost n: nat, ghost es: seq<Entry>)
    returns (offset: nat, pos: nat, offsetAt: nat)
    requires Holds(a[..], tag, n, es) && idx == |es| < n
    ensures offset == Sum(EntrySizes(es)) && pos == HEADER + 10 * n + offset
    ensures PtrPos(idx) == HEADER + 8 * idx && offsetAt == HEADER + 8 * n + 2 * idx
  {
    AppendPositions(a[..], tag, n, es);
    offset := GetOffset(a[..], idx);
    pos := KvPos(a[..], idx);
    offsetAt := OffsetPos(NKeys(a[..]), idx + 1);
  }

  method WriteEntry(a: array<byte>, ptrAt: nat, pos: nat, offsetAt: nat, ptr: nat, key: seq<byte>, val: seq<byte>,
                    end: nat, ghost n: nat, ghost idx: nat)
    requires idx < n && HEADER + 10 * n <= pos && pos + 4 + |key| + |val| <= a.Length <= MAX_BUFFER
    requires ptrAt == HEADER + 8 * idx && offsetAt == HEADER + 8 * n + 2 * idx
    modifies a
    ensures Appended(old(a[..]), a[..], n, idx, pos, end, Entry(ptr, key, val))
  {
    ghost var b := a[..];
    Put(a, ptrAt, ToLE(ptr, W64));
    PutKV(a, pos, key, val);
    Put(a, offsetAt, ToLE(end, W16));
    AppendImageAppends(b, n, idx, pos, end, Entry(ptr, key, val));
  }

  /** The lengths, the key and the value, one after the other. */
  method PutKV(a: array<byte>, pos: nat, key: seq<byte>, val: seq<byte>)
    requires pos + 4 + |key| + |val| <= a.Length <= MAX_BUFFER
    modifies a
    ensures a[..] == Patch(old(a[..]), pos, KvImage(key, val))
  {
    ghost var b := a[..];
    Put(a, pos, ToLE(|key|, W16));
    Put(a, pos + 2, ToLE(|val|, W16));
    PatchTwice(b, pos, ToLE(|key|, W16), ToLE(|val|, W16));
    Put(a, pos + 4, key);
    PatchTwice(b, pos, ToLE(|key|, W16) + ToLE(|val|, W16), key);
    Put(a, pos + 4 + |key|, val);
    PatchTwice(b, pos, ToLE(|key|, W16) + ToLE(|val|, W16) + key, val);
  }

  // ---------------------------------------------------------------------------------------
  // Building nodes from nodes. `target` is the list of entries that the new node will have.
  // ---------------------------------------------------------------------------------------

  ghost predicate Filled(a: array<byte>, tag: nat, target: seq<Entry>, k: nat)
    reads a
  {
    k <= |target| && NodeBytes(target) <= a.Length && Holds(a[..], tag, |target|, target[..k])
  }

  method Count(a: array<byte>, ghost tag: nat, ghost es: seq<Entry>) returns (n: nat)
    requires HoldsNode(a[..], tag, es)
    ensures n == |es|
  {
    HeaderRead(a[..], tag, |es|, es);
    n := NKeys(a[..]);
  }

  method ReadEntry(a: array<byte>, i: nat, ghost tag: nat, ghost es: seq<Entry>) returns (e: Entry)
    requires HoldsNode(a[..], tag, es) && i < |es|
    ensures e == es[i] && e.ptr < MAX64
  {
    EntryRead(a[..], tag, |es|, es, i);
    assert HasEntry(a[..], |es|, es, i);
    var pos := KvPos(a[..], i);
    e := Entry(GetPtr(a[..], i), GetKeyAt(a[..], pos), GetValAt(a[..], pos));
  }

  lemma PrefixBytes(target: seq<Entry>, k: nat)
    requires k < |target|
    ensures target[..k] + [target[k]] == target[..k + 1]
    ensures Sum(EntrySizes(target[..k])) + EntryBytes(target[k]) <= Sum(EntrySizes(target))
  {
    var s := EntrySizes(target);
    assert EntrySizes(target[..k]) == s[..k];
    SumStep(s, k);
    SumSplit(s, k + 1);
  }

  method AppendTo(a: array<byte>, idx: nat, e: Entry, ghost tag: nat, ghost target: seq<Entry>)
    requires idx < |target| && Filled(a, tag, target, idx) && e == target[idx] && e.ptr < MAX64
    modifies a
    ensures Filled(a, tag, target, idx + 1)
  {
    PrefixBytes(target, idx);
    AppendKV(a, idx, e.ptr, e.key, e.val, tag, |target|, target[..idx]);
  }

  /** nodeAppendRange. */
  method AppendRange(a: array<byte>, source: array<byte>, dst: nat, src: nat, cnt: nat,
                     ghost tag: nat, ghost target: seq<Entry>, ghost oldTag: nat, ghost es: seq<Entry>)
    requires a != source && HoldsNode(source[..], oldTag, es) && src + cnt <= |es|
    requires dst + cnt <= |target| && Filled(a, tag, target, dst)
    requires target[dst..dst + cnt] == es[src..src + cnt]
    modifies a
    ensures Filled(a, tag, target, dst + cnt)
  {
    var i := 0;
    while i < cnt
      invariant i <= cnt && Filled(a, tag, target, dst + i)
    {
      var e := ReadEntry(source, src + i, oldTag, es);
      assert e == es[src..src + cnt][i] == target[dst..dst + cnt][i];
      AppendTo(a, dst + i, e, tag, target);
      i := i + 1;
    }
  }

  method Start(a: array<byte>, tag: nat, n: nat, ghost target: seq<Entry>)
    requires tag < MAX16 && n == |target| && NodeBytes(target) <= a.Length <= MAX_BUFFER
    modifies a
    ensures Filled(a, tag, target, 0)
  {
    SetHeader(a, tag, n);
    assert target[..0] == [];
  }

  lemma Complete(a: array<byte>, tag: nat, target: seq<Entry>)
    requires Filled(a, tag, target, |target|)
    ensures HoldsNode(a[..], tag, target)
  {
    assert target[..|target|] == target;
  }

  /** leafInsert. */
  method LeafInsert(a: array<byte>, source: array<byte>, idx: nat, key: seq<byte>, val: seq<byte>, ghost es: seq<Entry>)
    requires a != source && HoldsNode(source[..], LEAF, es) && idx <= |es|
    requires NodeBytes(LeafInserted(es, idx, key, val)) <= a.Length <= 8192
    modifies a
    ensures HoldsNode(a[..], LEAF, LeafInserted(es, idx, key, val))
  {
    ghost var target := LeafInserted(es, idx, key, val);
    var n := Count(source, LEAF, es);
    Start(a, LEAF, n + 1, target);
    assert target[0..idx] == es[0..idx] && target[idx + 1..n + 1] == es[idx..n];
    AppendRange(a, source, 0, 0, idx, LEAF, target, LEAF, es);
    AppendTo(a, idx, Entry(0, key, val), LEAF, target);
    AppendRange(a, source, idx + 1, idx, n - idx, LEAF, target, LEAF, es);
    Complete(a, LEAF, target);
  }

  /** leafUpdate. */
  method LeafUpdate(a: array<byte>, source: array<byte>, idx: nat, key: seq<byte>, val: seq<byte>, ghost es: seq<Entry>)
    requires a != source && HoldsNode(source[..], LEAF, es) && idx < |es|
    requires NodeBytes(LeafUpdated(es, idx, key, val)) <= a.Length <= 8192
    modifies a
    ensures HoldsNode(a[..], LEAF, LeafUpdated(es, idx, key, val))
  {
    ghost var target := LeafUpdated(es, idx, key, val);
    var n := Count(source, LEAF, es);
    Start(a, LEAF, n, target);
    assert target[0..idx] == es[0..idx] && target[idx + 1..n] == es[idx + 1..n];
    AppendRange(a, source, 0, 0, idx, LEAF, target, LEAF, es);
    AppendTo(a, idx, Entry(0, key, val), LEAF, target);
    AppendRange(a, source, idx + 1, idx + 1, n - (idx + 1), LEAF, target, LEAF, es);
    Complete(a, LEAF, target);
  }

  /** nodeReplace2Kid. */
  method Replace2Kid(a: array<byte>, source: array<byte>, idx: nat, ptr: nat, key: seq<byte>, ghost es: seq<Entry>)
    requires a != source && HoldsNode(source[..], INTERNAL, es) && idx + 1 < |es| && ptr < MAX64
    requires NodeBytes(TwoKidsReplaced(es, idx, Entry(ptr, key, []))) <= a.Length <= 8192
    modifies a
    ensures HoldsNode(a[..], INTERNAL, TwoKidsReplaced(es, idx, Entry(ptr, key, [])))
  {
    ghost var target := TwoKidsReplaced(es, idx, Entry(ptr, key, []));
    var n := Count(source, INTERNAL, es);
    Start(a, INTERNAL, n - 1, target);
    assert target[0..idx] == es[0..idx] && target[idx + 1..n - 1] == es[idx + 2..n];
    AppendRange(a, source, 0, 0, idx, INTERNAL, target, INTERNAL, es);
    AppendTo(a, idx, Entry(ptr, key, []), INTERNAL, target);
    AppendRange(a, source, idx + 1, idx + 2, n - (idx + 2), INTERNAL, target, INTERNAL, es);
    Complete(a, INTERNAL, target);
  }

  method AppendKids(a: array<byte>, idx: nat, kids: seq<Entry>, ghost target: seq<Entry>)
    requires idx + |kids| <= |target| && target[idx..idx + |kids|] == kids && Filled(a, INTERNAL, target, idx)
    requires forall i :: 0 <= i < |kids| ==> kids[i].ptr < MAX64
    modifies a
    ensures Filled(a, INTERNAL, target, idx + |kids|)
  {
    var i := 0;
    while i < |kids|
      invariant i <= |kids| && Filled(a, INTERNAL, target, idx + i)
    {
      assert kids[i] == target[idx..idx + |kids|][i] == target[idx + i];
      AppendTo(a, idx + i, kids[i], INTERNAL, target);
      i := i + 1;
    }
  }

  lemma ReplacedParts(es: seq<Entry>, idx: nat, kids: seq<Entry>)
    requires idx < |es|
    ensures var t := KidsReplaced(es, idx, kids);
            var n, k := |es|, |kids|;
            && |t| == n + k - 1 && t[0..idx] == es[0..idx] && t[idx..idx + k] == kids
            && t[idx + k..n + k - 1] == es[idx + 1..n]
  {
  }

  /** nodeReplaceKidN, given the entries of the new children. */
  method ReplaceKidN(a: array<byte>, source: array<byte>, idx: nat, kids: seq<Entry>, ghost es: seq<Entry>)
    requires a != source && HoldsNode(source[..], INTERNAL, es) && idx < |es|
    requires forall i :: 0 <= i < |kids| ==> kids[i].ptr < MAX64
    requires NodeBytes(KidsReplaced(es, idx, kids)) <= a.Length <= 8192
    modifies a
    ensures HoldsNode(a[..], INTERNAL, KidsReplaced(es, idx, kids))
  {
    ghost var target := KidsReplaced(es, idx, kids);
    var n := Count(source, INTERNAL, es);
    Start(a, INTERNAL, n + |kids| - 1, target);
    ReplacedParts(es, idx, kids);
    AppendRange(a, source, 0, 0, idx, INTERNAL, target, INTERNAL, es);
    AppendKids(a, idx, kids, target);
    AppendRange(a, source, idx + |kids|, idx + 1, n - (idx + 1), INTERNAL, target, INTERNAL, es);
    Complete(a, INTERNAL, target);
  }

  /** nodeMerge. */
  method Merge(a: array<byte>, left: array<byte>, right: array<byte>, ghost tag: nat,
               ghost ls: seq<Entry>, ghost rs: seq<Entry>)
    requires a != left && a != right && HoldsNode(left[..], tag, ls) && HoldsNode(right[..], tag, rs)
    requires NodeBytes(ls + rs) <= a.Length <= 8192
    modifies a
    ensures HoldsNode(a[..], tag, ls + rs)
  {
    HeaderRead(left[..], tag, |ls|, ls);
    HeaderRead(right[..], tag, |rs|, rs);
    var t, n, m := BType(left[..]), NKeys(left[..]), NKeys(right[..]);
    Start(a, t, n + m, ls + rs);
    assert (ls + rs)[0..n] == ls[0..n] && (ls + rs)[n..n + m] == rs[0..m];
    AppendRange(a, left, 0, 0, n, t, ls + rs, tag, ls);
    AppendRange(a, right, n, 0, m, t, ls + rs, tag, rs);
    Complete(a, t, ls + rs);
  }

  lemma RemovedParts(es: seq<Entry>, idx: nat)
    requires idx < |es|
    ensures var t := EntryRemoved(es, idx);
            |t| == |es| - 1 && t[0..idx] == es[0..idx] && t[idx..|es| - 1] == es[idx + 1..|es|]
  {
  }

  /** The deletion of one entry of a leaf. */
  method LeafDelete(a: array<byte>, source: array<byte>, idx: nat, ghost es: seq<Entry>)
    requires a != source && HoldsNode(source[..], LEAF, es) && idx < |es|
    requires NodeBytes(EntryRemoved(es, idx)) <= a.Length <= 8192
    modifies a
    ensures HoldsNode(a[..], LEAF, EntryRemoved(es, idx))
  {
    ghost var target := EntryRemoved(es, idx);
    var n := Count(source, LEAF, es);
    Start(a, LEAF, n - 1, target);
    RemovedParts(es, idx);
    AppendRange(a, source, 0, 0, idx, LEAF, target, LEAF, es);
    AppendRange(a, source, idx, idx + 1, n - (idx + 1), LEAF, target, LEAF, es);
    Complete(a, LEAF, target);
  }

  // ---------------------------------------------------------------------------------------
  // Searching and splitting.
  // ---------------------------------------------------------------------------------------

  ghost predicate KeysSorted(es: seq<Entry>) {
    forall i, j :: 0 <= i < j < |es| ==> Less(es[i].key, es[j].key)
  }

  ghost predicate AtMost(es: seq<Entry>, lo: nat, key: seq<byte>)
    requires lo <= |es|
  {
    forall j :: 0 <= j < lo ==> !Less(key, es[j].key)
  }

  ghost predicate Beyond(es: seq<Entry>, hi: nat, key: seq<byte>)
  {
    forall j :: hi <= j < |es| ==> Less(key, es[j].key)
  }

  lemma RaiseLow(es: seq<Entry>, mid: nat, key: seq<byte>)
    requires mid < |es| && KeysSorted(es) && !Less(key, es[mid].key)
    ensures AtMost(es, mid + 1, key)
  {
    forall j | 0 <= j < mid + 1 ensures !Less(key, es[j].key) {
      if Less(key, es[j].key) && j < mid {
        LessTrans(key, es[j].key, es[mid].key);
      }
    }
  }

  lemma LowerHigh(es: seq<Entry>, mid: nat, key: seq<byte>)
    requires mid < |es| && KeysSorted(es) && Less(key, es[mid].key)
    ensures Beyond(es, mid, key)
  {
    forall j | mid <= j < |es| ensures Less(key, es[j].key) {
      if j > mid {
        LessTrans(key, es[mid].key, es[j].key);
      }
    }
  }

  lemma LookupFound(es: seq<Entry>, lo: nat, key: seq<byte>)
    requires lo <= |es| && AtMost(es, lo, key) && Beyond(es, lo, key)
    ensures LookupLE(EntryKeys(es), key) == if lo == 0 then 0 else lo - 1
  {
    var keys := EntryKeys(es);
    var r := LookupLE(keys, key);
    assert forall j :: 0 <= j < |es| ==> keys[j] == es[j].key;
    if lo > 0 {
      assert !Less(key, keys[lo - 1]);
    }
  }

  /** nodeLookupLE: the binary search finds the position that the tree layer descends by. */
  method Lookup(a: array<byte>, key: seq<byte>, ghost tag: nat, ghost es: seq<Entry>) returns (r: nat)
    requires HoldsNode(a[..], tag, es) && KeysSorted(es)
    ensures r == LookupLE(EntryKeys(es), key)
  {
    HeaderRead(a[..], tag, |es|, es);
    var n := NKeys(a[..]);
    var lo, hi := 0, n;
    while lo < hi
      invariant lo <= hi <= n && AtMost(es, lo, key) && Beyond(es, hi, key)
    {
      var mid := lo + (hi - lo) / 2;
      var e := ReadEntry(a, mid, tag, es);
      var c := Compare(e.key, key);
      LessTotal(e.key, key);
      if c <= 0 {
        RaiseLow(es, mid, key);
        lo := mid + 1;
      } else {
        LowerHigh(es, mid, key);
        hi := mid;
      }
    }
    LookupFound(es, lo, key);
    r := if lo == 0 then 0 else lo - 1;
  }

  /** The loop of nodeSplit2. */
  method FindSplit(a: array<byte>, ghost tag: nat, ghost es: seq<Entry>) returns (splitIdx: nat)
    requires HoldsNode(a[..], tag, es)
    ensures splitIdx == SplitIdx(EntrySizes(es)) <= |es|
  {
    NBytesRead(a[..], tag, es);
    ghost var s := EntrySizes(es);
    var n := NKeys(a[..]);
    var total := KvPos(a[..], n);
    splitIdx := 0;
    var accum := 0;
    while splitIdx < n
      invariant splitIdx <= n && accum == Sum(s[..splitIdx])
      invariant SplitFrom(s, total / 2, splitIdx, accum) == SplitFrom(s, total / 2, 0, 0)
    {
      var e := ReadEntry(a, splitIdx, tag, es);
      var kvBytes := 4 + |e.key| + |e.val|;
      SumStep(s, splitIdx);
      if accum + kvBytes > total / 2 && splitIdx > 0 {
        break;
      }
      accum := accum + kvBytes;
      splitIdx := splitIdx + 1;
    }
  }

  /** nodeSplit2: the two halves hold the entries before and from the split point on. */
  method Split2(left: array<byte>, right: array<byte>, source: array<byte>, ghost tag: nat, ghost es: seq<Entry>)
    returns (i: nat)
    requires left != right && left != source && right != source && HoldsNode(source[..], tag, es)
    requires SplitIdx(EntrySizes(es)) <= |es|
    requires NodeBytes(es[..SplitIdx(EntrySizes(es))]) <= left.Length <= 8192
    requires NodeBytes(es[SplitIdx(EntrySizes(es))..]) <= right.Length <= 8192
    modifies left, right
    ensures i == SplitIdx(EntrySizes(es))
    ensures HoldsNode(left[..], tag, es[..i]) && HoldsNode(right[..], tag, es[i..])
  {
    HeaderRead(source[..], tag, |es|, es);
    var n, t := NKeys(source[..]), BType(source[..]);
    i := FindSplit(source, tag, es);
    ghost var ls, rs := es[..i], es[i..];
    Start(left, t, i, ls);
    assert ls[0..i] == es[0..i] && rs[0..n - i] == es[i..n];
    AppendRange(left, source, 0, 0, i, t, ls, tag, es);
    Complete(left, t, ls);
    Start(right, t, n - i, rs);
    AppendRange(right, source, 0, i, n - i, t, rs, tag, es);
    Complete(right, t, rs);
  }
}
