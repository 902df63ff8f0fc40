/** The meta page: signature, root, page count, free-list fields and a checksum at the end. */
module MetaPages {
  import opened Basics
  import opened Bytes
  import opened Endian

  const PAGE: nat := 4096
  const SUM_AT: nat := 4092
  const SIG_SIZE: nat := 16

  /** "SvacaraDB01" and zeros. */
  const SIG: seq<byte> := [0x53, 0x76, 0x61, 0x63, 0x61, 0x72, 0x61, 0x44, 0x42, 0x30, 0x31, 0, 0, 0, 0, 0]

  type Sum = n: nat | n < 0x1_0000_0000

  /** Root, used pages, and head and tail of the free list. */
  datatype Meta = Meta(root: nat, flushed: nat, headPage: nat, headSeq: nat, tailPage: nat, tailSeq: nat)

  predicate Fits(m: Meta) {
    && m.root < MAX64 && m.flushed < MAX64 && m.headPage < MAX64
    && m.headSeq < MAX64 && m.tailPage < MAX64 && m.tailSeq < MAX64
  }

  function Field(page: seq<byte>, i: nat): nat
    requires |page| == PAGE && i < 6
  {
    FromLE(page[SIG_SIZE + 8 * i..SIG_SIZE + 8 * i + 8])
  }

  /** ReadMeta. */
  function ReadMeta(page: seq<byte>): Option<Meta>
    requires |page| == PAGE
  {
    if page[..SIG_SIZE] != SIG then None
    else Some(Meta(Field(page, 0), Field(page, 1), Field(page, 2), Field(page, 3), Field(page, 4), Field(page, 5)))
  }

  /** VerifyMeta; the checksum does not cover the first four bytes. */
  predicate Verified(crc: seq<byte> -> Sum, page: seq<byte>)
    requires |page| == PAGE
  {
    FromLE(page[SUM_AT..PAGE]) == crc(page[4..SUM_AT])
  }

  /** ReadMetaSafe. */
  function ReadMetaSafe(crc: seq<byte> -> Sum, page: seq<byte>): Option<Meta>
    requires |page| == PAGE
  {
    if Verified(crc, page) then ReadMeta(page) else None
  }

  /**
   The page of 4096 bytes, byte by byte. It is accepted if and only if its last four bytes are the checksum of
   bytes 4 to 4092 and it begins with "SvacaraDB01" and five zeros; and then root, number of pages, head page,
   head position, tail page and tail position follow in eight bytes each.
   */
  lemma MetaFormat(crc: seq<byte> -> Sum, page: seq<byte>)
    requires |page| == 4096
    ensures ReadMetaSafe(crc, page)
         == if && At32(page, 4092) == crc(page[4..4092])
               && page[..16] == [0x53, 0x76, 0x61, 0x63, 0x61, 0x72, 0x61, 0x44, 0x42, 0x30, 0x31, 0, 0, 0, 0, 0]
            then Some(Meta(At64(page, 16), At64(page, 24), At64(page, 32), At64(page, 40), At64(page, 48),
                           At64(page, 56)))
            else None
  {
    Read32(page, 4092);
    Read64(page, 16);
    Read64(page, 24);
    Read64(page, 32);
    Read64(page, 40);
    Read64(page, 48);
    Read64(page, 56);
  }

  /** The first four bytes are outside the checksum, but a page with others is refused all the same. */
  lemma CoveredDecides(crc: seq<byte> -> Sum, a: seq<byte>, b: seq<byte>)
    requires |a| == PAGE && |b| == PAGE && a[4..] == b[4..]
    requires ReadMetaSafe(crc, a).Some? && ReadMetaSafe(crc, b).Some?
    ensures a == b
  {
    assert a[..4] == a[..SIG_SIZE][..4] && b[..4] == b[..SIG_SIZE][..4];
    assert a == a[..4] + a[4..] && b == b[..4] + b[4..];
  }

  function Fields(m: Meta): seq<nat> {
    [m.root, m.flushed, m.headPage, m.headSeq, m.tailPage, m.tailSeq]
  }

  ghost predicate Written(page: seq<byte>, m: Meta, k: nat)
    requires k <= 6
  {
    && |page| == PAGE && page[..SIG_SIZE] == SIG
    && forall i :: 0 <= i < k ==> page[SIG_SIZE + 8 * i..SIG_SIZE + 8 * i + 8] == ToLE(Fields(m)[i], W64)
  }

  lemma WriteNext(page: seq<byte>, m: Meta, k: nat)
    requires k < 6 && Written(page, m, k)
    ensures Written(Patch(page, SIG_SIZE + 8 * k, ToLE(Fields(m)[k], W64)), m, k + 1)
  {
    var at, x := SIG_SIZE + 8 * k, ToLE(Fields(m)[k], W64);
    PatchHit(page, at, x);
    PatchMiss(page, at, x, 0, SIG_SIZE);
    forall i | 0 <= i < k
      ensures Patch(page, at, x)[SIG_SIZE + 8 * i..SIG_SIZE + 8 * i + 8] == ToLE(Fields(m)[i], W64)
    {
      PatchMiss(page, at, x, SIG_SIZE + 8 * i, SIG_SIZE + 8 * i + 8);
    }
  }

  lemma ReadWritten(page: seq<byte>, m: Meta)
    requires Written(page, m, 6) && Fits(m)
    ensures ReadMeta(page) == Some(m)
  {
    forall i | 0 <= i < 6 ensures Field(page, i) == Fields(m)[i] {
      LE64RoundTrip(Fields(m)[i]);
    }
  }

  method PutField(page: array<byte>, i: nat, x: nat, ghost m: Meta)
    requires page.Length == PAGE && i < 6 && Written(page[..], m, i) && x == Fields(m)[i]
    modifies page
    ensures Written(page[..], m, i + 1)
  {
    WriteNext(page[..], m, i);
    Put(page, SIG_SIZE + 8 * i, ToLE(x, W64));
  }

  /** WriteMeta. */
  method WriteMeta(page: array<byte>, m: Meta)
    requires page.Length == PAGE
    modifies page
    ensures Written(page[..], m, 6)
  {
    Put(page, 0, SIG);
    PutField(page, 0, m.root, m);
    PutField(page, 1, m.flushed, m);
    PutField(page, 2, m.headPage, m);
    PutField(page, 3, m.headSeq, m);
    PutField(page, 4, m.tailPage, m);
    PutField(page, 5, m.tailSeq, m);
  }

  lemma SumRead(n: Sum)
    ensures FromLE(ToLE(n, W32)) == n
  {
    Widths();
    LERoundTrip(n, W32);
  }

  lemma SumKeeps(page: seq<byte>, m: Meta, sum: seq<byte>)
    requires Written(page, m, 6) && |sum| == W32
    ensures Written(Patch(page, SUM_AT, sum), m, 6)
  {
    PatchMiss(page, SUM_AT, sum, 0, SIG_SIZE);
    forall i | 0 <= i < 6
      ensures Patch(page, SUM_AT, sum)[SIG_SIZE + 8 * i..SIG_SIZE + 8 * i + 8] == ToLE(Fields(m)[i], W64)
    {
      PatchMiss(page, SUM_AT, sum, SIG_SIZE + 8 * i, SIG_SIZE + 8 * i + 8);
    }
  }

  /** WriteMetaFull: whatever the page held before, the meta reads back, for any checksum function. */
  method WriteMetaFull(crc: seq<byte> -> Sum, page: array<byte>, m: Meta)
    requires page.Length == PAGE && Fits(m)
    modifies page
    ensures ReadMetaSafe(crc, page[..]) == Some(m)
  {
    WriteMeta(page, m);
    ghost var before := page[..];
    var sum := crc(page[4..SUM_AT]);
    Put(page, SUM_AT, ToLE(sum, W32));
    SumKeeps(before, m, ToLE(sum, W32));
    ReadWritten(page[..], m);
    PatchHit(before, SUM_AT, ToLE(sum, W32));
    PatchMiss(before, SUM_AT, ToLE(sum, W32), 4, SUM_AT);
    SumRead(sum);
    assert page[4..SUM_AT] == page[..][4..SUM_AT];
  }
}
