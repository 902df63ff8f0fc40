/**
 Overflow chains: a long value is cut into chunks of at most 4084 bytes, one per page, behind a
 magic number, the chunk's length and the number of the next page. The link of a page is
 written into the previous page in place.
 */
module Overflow {
  import opened Bytes
  import opened Endian

  const PAGE: nat := 4096
  const CHUNK: nat := 4084
  const MAGIC: nat := 0xBEEF

  /** Number of chunks. */
  function Chunks(n: nat): nat {
    (n + 4083) / 4084
  }

  function Upto(n: nat, i: nat): nat {
    if 4084 * i < n then 4084 * i else n
  }

  function Chunk(data: seq<byte>, i: nat): (c: seq<byte>)
    ensures |c| <= CHUNK
  {
    data[Upto(|data|, i)..Upto(|data|, i + 1)]
  }

  function Magic(page: seq<byte>): nat requires |page| == PAGE { FromLE(page[0..2]) }

  function Len(page: seq<byte>): nat requires |page| == PAGE { FromLE(page[2..4]) }

  function NextPtr(page: seq<byte>): nat requires |page| == PAGE { FromLE(page[4..12]) }

  /** The bytes of an overflow page. */
  ghost predicate IsPage(page: seq<byte>, chunk: seq<byte>, next: nat) {
    && |page| == PAGE && |chunk| <= CHUNK && next < MAX64
    && page[0..2] == ToLE(MAGIC, W16) && page[2..4] == ToLE(|chunk|, W16)
    && page[4..12] == ToLE(next, W64) && page[12..12 + |chunk|] == chunk
  }

  lemma PageRead(page: seq<byte>, chunk: seq<byte>, next: nat)
    requires IsPage(page, chunk, next)
    ensures Magic(page) == MAGIC && Len(page) == |chunk| && NextPtr(page) == next
  {
    LE16RoundTrip(MAGIC);
    LE16RoundTrip(|chunk|);
    LE64RoundTrip(next);
  }

  /** A page, byte by byte: 0xBEEF, the length of the chunk, the next page, the chunk. */
  predicate PageIs(page: seq<byte>, chunk: seq<byte>, next: nat) {
    && |page| == 4096 && |chunk| <= 4084 && page[12..12 + |chunk|] == chunk
    && At16(page, 0) == 0xBEEF && At16(page, 2) == |chunk| && At64(page, 4) == next
  }

  /** The pages of a chain: each holds its part of the data, of 4084 bytes in every page but the last. */
  lemma PageFormat(pages: map<nat, seq<byte>>, first: nat, ptrs: seq<nat>, data: seq<byte>, i: nat)
    requires Holds(pages, first, ptrs, data) && i < |ptrs|
    ensures first == ptrs[0] && ptrs[i] in pages && 4084 * i < |data| <= 4084 * |ptrs|
    ensures var end := if i + 1 < |ptrs| then 4084 * (i + 1) else |data|;
            var next := if i + 1 < |ptrs| then ptrs[i + 1] else 0;
            4084 * i <= end <= |data| && PageIs(pages[ptrs[i]], data[4084 * i..end], next)
  {
    PageIn(pages, first, ptrs, data, i);
    PageBytes(pages[ptrs[i]], Chunk(data, i), Link(ptrs, i + 1));
    ChunkBytes(data, i, |ptrs|);
  }

  lemma PageIn(pages: map<nat, seq<byte>>, first: nat, ptrs: seq<nat>, data: seq<byte>, i: nat)
    requires Holds(pages, first, ptrs, data) && i < |ptrs|
    ensures |ptrs| == Chunks(|data|) && ptrs[i] in pages
    ensures IsPage(pages[ptrs[i]], Chunk(data, i), Link(ptrs, i + 1))
  {
    assert PageAt(pages, ptrs[i], Chunk(data, i), Link(ptrs, i + 1));
  }

  lemma PageBytes(page: seq<byte>, chunk: seq<byte>, next: nat)
    requires IsPage(page, chunk, next)
    ensures PageIs(page, chunk, next)
  {
    PageRead(page, chunk, next);
    Read16(page, 0);
    Read16(page, 2);
    Read64(page, 4);
  }

  lemma ChunkBytes(data: seq<byte>, i: nat, n: nat)
    requires i < n == Chunks(|data|)
    ensures 4084 * i < |data| <= 4084 * n
    ensures var end := if i + 1 < n then 4084 * (i + 1) else |data|;
            4084 * i <= end <= |data| && Chunk(data, i) == data[4084 * i..end]
  {
  }

  lemma PageRelinked(page: seq<byte>, chunk: seq<byte>, next: nat, next': nat)
    requires IsPage(page, chunk, next) && next' < MAX64
    ensures IsPage(Patch(page, 4, ToLE(next', W64)), chunk, next')
  {
    var link := ToLE(next', W64);
    PatchHit(page, 4, link);
    PatchMiss(page, 4, link, 0, 2);
    PatchMiss(page, 4, link, 2, 4);
    PatchMiss(page, 4, link, 12, 12 + |chunk|);
  }

  ghost function Link(ptrs: seq<nat>, i: nat): nat {
    if i < |ptrs| then ptrs[i] else 0
  }

  ghost predicate Distinct(ptrs: seq<nat>) {
    && (forall i :: 0 <= i < |ptrs| ==> 0 < ptrs[i] < MAX64)
    && forall i, j :: 0 <= i < j < |ptrs| ==> ptrs[i] != ptrs[j]
  }

  /** Pages `ptrs` hold the first chunks of `data`, each linked to the next, the last to none. */
  ghost predicate Linked(pages: map<nat, seq<byte>>, ptrs: seq<nat>, data: seq<byte>) {
    && Distinct(ptrs)
    && forall i :: 0 <= i < |ptrs| ==> PageAt(pages, ptrs[i], Chunk(data, i), Link(ptrs, i + 1))
  }

  /** The whole value is stored from page `first` on. */
  ghost predicate Holds(pages: map<nat, seq<byte>>, first: nat, ptrs: seq<nat>, data: seq<byte>) {
    Linked(pages, ptrs, data) && |ptrs| == Chunks(|data|) && first == Link(ptrs, 0)
  }

  lemma AllChunks(n: nat, k: nat)
    ensures k <= Chunks(n) ==> (k < Chunks(n) <==> Upto(n, k) < n)
    ensures k == Chunks(n) ==> Upto(n, k) == n
  {
  }

  ghost predicate SamePages(pages: map<nat, seq<byte>>, pages': map<nat, seq<byte>>, on: set<nat>) {
    forall p :: p in on && p in pages ==> p in pages' && pages'[p] == pages[p]
  }

  ghost function SetOf(ptrs: seq<nat>): set<nat> {
    set i | 0 <= i < |ptrs| :: ptrs[i]
  }

  lemma SetOfAppend(ptrs: seq<nat>, p: nat)
    ensures SetOf(ptrs + [p]) == SetOf(ptrs) + {p}
  {
    var r := ptrs + [p];
    forall x ensures x in SetOf(r) <==> x in SetOf(ptrs) + {p} {
      if x in SetOf(ptrs) {
        var i :| 0 <= i < |ptrs| && ptrs[i] == x;
        assert r[i] == x;
      }
      if x == p {
        assert r[|ptrs|] == x;
      }
    }
  }

  /** Page `i` of a chain is in place. */
  ghost predicate PageAt(pages: map<nat, seq<byte>>, ptr: nat, chunk: seq<byte>, next: nat) {
    ptr in pages && IsPage(pages[ptr], chunk, next)
  }

  /** The pages after a new one was written and the last one linked to it. */
  function Extended(pages: map<nat, seq<byte>>, prev: nat, ptr: nat, page: seq<byte>): map<nat, seq<byte>>
    requires prev != 0 ==> prev in pages && |pages[prev]| == PAGE
  {
    if prev == 0 then pages[ptr := page]
    else pages[ptr := page][prev := Patch(pages[prev], 4, ToLE(ptr, W64))]
  }

  lemma DistinctAppend(ptrs: seq<nat>, ptr: nat)
    requires Distinct(ptrs) && 0 < ptr < MAX64 && ptr !in SetOf(ptrs)
    ensures Distinct(ptrs + [ptr])
  {
    forall i | 0 <= i < |ptrs| ensures ptrs[i] != ptr {
      assert ptrs[i] in SetOf(ptrs);
    }
  }

  ghost function Last(ptrs: seq<nat>): nat {
    if ptrs == [] then 0 else ptrs[|ptrs| - 1]
  }

  lemma ExtendedAt(pages: map<nat, seq<byte>>, ptrs: seq<nat>, data: seq<byte>, ptr: nat, page: seq<byte>, i: nat)
    requires Linked(pages, ptrs, data) && Distinct(ptrs + [ptr]) && i <= |ptrs|
    requires IsPage(page, Chunk(data, |ptrs|), 0)
    ensures PageAt(Extended(pages, Last(ptrs), ptr, page), (ptrs + [ptr])[i], Chunk(data, i), Link(ptrs + [ptr], i + 1))
  {
    var r := ptrs + [ptr];
    assert r[|ptrs|] == ptr;
    if i < |ptrs| {
      assert r[i] == ptrs[i] && r[i] != r[|ptrs|];
      assert PageAt(pages, ptrs[i], Chunk(data, i), Link(ptrs, i + 1));
      if i + 1 == |ptrs| {
        PageRelinked(pages[ptrs[i]], Chunk(data, i), 0, ptr);
      } else {
        assert r[|ptrs| - 1] == ptrs[|ptrs| - 1] && r[i] != r[|ptrs| - 1];
      }
    } else if ptrs != [] {
      assert r[|ptrs| - 1] == ptrs[|ptrs| - 1] && r[|ptrs| - 1] != r[|ptrs|];
    }
  }

  /** A page added behind the last one. */
  lemma LinkedAppend(pages: map<nat, seq<byte>>, ptrs: seq<nat>, data: seq<byte>, ptr: nat, page: seq<byte>)
    requires Linked(pages, ptrs, data) && 0 < ptr < MAX64 && ptr !in SetOf(ptrs)
    requires IsPage(page, Chunk(data, |ptrs|), 0)
    ensures Linked(Extended(pages, Last(ptrs), ptr, page), ptrs + [ptr], data)
  {
    DistinctAppend(ptrs, ptr);
    forall i | 0 <= i < |ptrs| + 1
      ensures PageAt(Extended(pages, Last(ptrs), ptr, page), (ptrs + [ptr])[i], Chunk(data, i),
                     Link(ptrs + [ptr], i + 1))
    {
      ExtendedAt(pages, ptrs, data, ptr, page, i);
    }
  }

  class ByteStore {
    var pages: map<nat, seq<byte>>
    var live: set<nat>

    ghost predicate Valid()
      reads this
    {
      0 !in live && live <= pages.Keys
    }

    /** Any free page number below 2^64. */
    method NewPage(page: seq<byte>) returns (ptr: nat)
      requires Valid() && |live| + 1 < MAX64
      modifies this
      ensures Valid() && 0 < ptr < MAX64 && ptr !in old(live)
      ensures live == old(live) + {ptr} && pages == old(pages)[ptr := page]
    {
      FreeNumber(live, MAX64 - 1);
      ptr :| 0 < ptr < MAX64 && ptr !in live;
      live, pages := live + {ptr}, pages[ptr := page];
    }

    method DelPage(ptr: nat)
      requires Valid() && ptr in live
      modifies `live
      ensures Valid() && live == old(live) - {ptr}
    {
      live := live - {ptr};
    }

    /** The store into a page that GetPage returned. */
    method SetLink(ptr: nat, next: nat)
      requires ptr in pages && |pages[ptr]| == PAGE
      modifies `pages
      ensures pages == old(pages)[ptr := Patch(old(pages)[ptr], 4, ToLE(next, W64))]
    {
      pages := pages[ptr := Patch(pages[ptr], 4, ToLE(next, W64))];
    }
  }

  lemma {:induction false} FreeNumber(s: set<nat>, n: nat)
    requires |s| < n
    ensures exists p: nat :: 0 < p <= n && p !in s
    decreases n
  {
    if n in s {
      FreeNumber(s - {n}, n - 1);
      var p: nat :| 0 < p <= n - 1 && p !in s - {n};
      assert p !in s;
    }
  }

  /** A fresh page with its chunk and no link. */
  method BuildPage(chunk: seq<byte>) returns (page: seq<byte>)
    requires |chunk| <= CHUNK
    ensures IsPage(page, chunk, 0) && forall i :: 12 + |chunk| <= i < 4096 ==> page[i] == 0
  {
    var a := new byte[PAGE](_ => 0);
    Put(a, 0, ToLE(MAGIC, W16));
    Put(a, 2, ToLE(|chunk|, W16));
    Put(a, 4, ToLE(0, W64));
    Put(a, 12, chunk);
    page := a[..];
  }

  /** allocOverflow: new pages only, exactly as many as there are chunks. */
  method AllocOverflow(store: ByteStore, data: seq<byte>) returns (first: nat, ghost ptrs: seq<nat>)
    requires store.Valid() && |store.live| + Chunks(|data|) < MAX64
    modifies store
    ensures store.Valid() && Holds(store.pages, first, ptrs, data)
    ensures Taken(old(store.pages), old(store.live), store.pages, store.live, ptrs)
  {
    ghost var pages, live := store.pages, store.live;
    TakenNone(pages, live);
    var remaining := data;
    var prev := 0;
    first, ptrs := 0, [];
    while |remaining| > 0
      invariant store.Valid() && Taken(pages, live, store.pages, store.live, ptrs)
      invariant Linked(store.pages, ptrs, data)
      invariant Cut(data, ptrs, first, prev, remaining)
      decreases |remaining|
    {
      RestStep(data, |ptrs|, remaining);
      var chunk := if |remaining| > CHUNK then remaining[..CHUNK] else remaining;
      var ptr := AddPage(store, chunk, prev, ptrs, data, pages, live);
      CutStep(data, ptrs, first, prev, remaining, ptr);
      if first == 0 {
        first := ptr;
      }
      prev, ptrs := ptr, ptrs + [ptr];
      remaining := remaining[|chunk|..];
    }
    RestEmpty(data, |ptrs|);
  }

  /** What the loop's variables say after the chunks of `ptrs` are stored. */
  ghost predicate Cut(data: seq<byte>, ptrs: seq<nat>, first: nat, prev: nat, remaining: seq<byte>) {
    && |ptrs| <= Chunks(|data|) && remaining == Rest(data, |ptrs|)
    && first == Link(ptrs, 0) && prev == Last(ptrs)
    && forall i :: 0 <= i < |ptrs| ==> ptrs[i] != 0
  }

  lemma CutStep(data: seq<byte>, ptrs: seq<nat>, first: nat, prev: nat, remaining: seq<byte>, ptr: nat)
    requires Cut(data, ptrs, first, prev, remaining) && remaining != [] && ptr != 0
    ensures Cut(data, ptrs + [ptr], if first == 0 then ptr else first, ptr, remaining[|Chunk(data, |ptrs|)|..])
  {
    RestStep(data, |ptrs|, remaining);
  }

  ghost function Rest(data: seq<byte>, i: nat): seq<byte> {
    data[Upto(|data|, i)..]
  }

  lemma RestEmpty(data: seq<byte>, i: nat)
    requires Rest(data, i) == [] && i <= Chunks(|data|)
    ensures i == Chunks(|data|)
  {
    AllChunks(|data|, i);
  }

  lemma RestStep(data: seq<byte>, i: nat, rest: seq<byte>)
    requires rest == Rest(data, i) && rest != [] && i <= Chunks(|data|)
    ensures i < Chunks(|data|) && Chunk(data, i) != []
    ensures Chunk(data, i) == if |rest| > CHUNK then rest[..CHUNK] else rest
    ensures rest[|Chunk(data, i)|..] == Rest(data, i + 1)
  {
    AllChunks(|data|, i);
    assert Upto(|data|, i + 1) == Upto(|data|, i) + if |rest| > 4084 then 4084 else |rest|;
  }

  /** The pages in use have grown by `ptrs`, and none of the earlier ones has changed. */
  ghost predicate Taken(pages: map<nat, seq<byte>>, live: set<nat>, pages': map<nat, seq<byte>>, live': set<nat>,
                        ptrs: seq<nat>) {
    && SetOf(ptrs) !! live && live' == live + SetOf(ptrs) && |live'| == |live| + |ptrs|
    && SamePages(pages, pages', live)
  }

  lemma TakenNone(pages: map<nat, seq<byte>>, live: set<nat>)
    ensures Taken(pages, live, pages, live, [])
  {
  }

  lemma TakenMore(pages: map<nat, seq<byte>>, live: set<nat>, mid: map<nat, seq<byte>>, live': set<nat>,
                  ptrs: seq<nat>, ptr: nat, page: seq<byte>)
    requires Taken(pages, live, mid, live', ptrs) && ptr !in live' && 0 !in live'
    requires Last(ptrs) != 0 ==> Last(ptrs) in mid && |mid[Last(ptrs)]| == PAGE
    ensures Taken(pages, live, Extended(mid, Last(ptrs), ptr, page), live' + {ptr}, ptrs + [ptr])
  {
    SetOfAppend(ptrs, ptr);
    if ptrs != [] {
      assert Last(ptrs) in SetOf(ptrs);
    }
  }

  /** One turn of the loop: a page for the chunk, and the link from the page before. */
  method AddPage(store: ByteStore, chunk: seq<byte>, prev: nat, ghost ptrs: seq<nat>, ghost data: seq<byte>,
                 ghost pages: map<nat, seq<byte>>, ghost live: set<nat>) returns (ptr: nat)
    requires store.Valid() && |live| + |ptrs| + 1 < MAX64 && chunk == Chunk(data, |ptrs|) && prev == Last(ptrs)
    requires Linked(store.pages, ptrs, data) && Taken(pages, live, store.pages, store.live, ptrs)
    modifies store
    ensures store.Valid() && ptr != 0 && Linked(store.pages, ptrs + [ptr], data)
    ensures Taken(pages, live, store.pages, store.live, ptrs + [ptr])
  {
    ghost var mid, was := store.pages, store.live;
    var page := BuildPage(chunk);
    LastPage(mid, ptrs, data);
    assert prev != 0 ==> prev in SetOf(ptrs);
    ptr := WriteLinked(store, page, prev);
    LastTaken(pages, live, mid, was, ptrs, ptr);
    LinkedAppend(mid, ptrs, data, ptr, page);
    TakenMore(pages, live, mid, was, ptrs, ptr, page);
  }

  lemma LastPage(pages: map<nat, seq<byte>>, ptrs: seq<nat>, data: seq<byte>)
    requires Linked(pages, ptrs, data)
    ensures Last(ptrs) != 0 ==> Last(ptrs) in pages && |pages[Last(ptrs)]| == PAGE
  {
    if ptrs != [] {
      assert PageAt(pages, Last(ptrs), Chunk(data, |ptrs| - 1), 0);
    }
  }

  lemma LastTaken(pages: map<nat, seq<byte>>, live: set<nat>, mid: map<nat, seq<byte>>, live': set<nat>,
                  ptrs: seq<nat>, ptr: nat)
    requires Taken(pages, live, mid, live', ptrs) && ptr !in live'
    ensures ptr !in SetOf(ptrs)
  {
  }

  method WriteLinked(store: ByteStore, page: seq<byte>, prev: nat) returns (ptr: nat)
    requires store.Valid() && |store.live| + 1 < MAX64
    requires prev != 0 ==> prev in store.pages && |store.pages[prev]| == PAGE && prev in store.live
    modifies store
    ensures store.Valid() && 0 < ptr < MAX64 && ptr !in old(store.live) && store.live == old(store.live) + {ptr}
    ensures store.pages == Extended(old(store.pages), prev, ptr, page)
  {
    ptr := store.NewPage(page);
    if prev != 0 {
      store.SetLink(prev, ptr);
    }
  }

  ghost function Front(data: seq<byte>, i: nat): seq<byte> {
    data[..Upto(|data|, i)]
  }

  lemma FrontStep(data: seq<byte>, i: nat)
    ensures Front(data, i) + Chunk(data, i) == Front(data, i + 1)
  {
  }

  lemma FrontAll(data: seq<byte>)
    ensures Front(data, Chunks(|data|)) == data
  {
    AllChunks(|data|, Chunks(|data|));
  }

  method ReadPage(store: ByteStore, ptr: nat, ghost chunk: seq<byte>, ghost next: nat)
    returns (ok: bool, part: seq<byte>, link: nat)
    requires PageAt(store.pages, ptr, chunk, next)
    ensures ok && part == chunk && link == next
  {
    var page := store.pages[ptr];
    PageRead(page, chunk, next);
    ok := Magic(page) == MAGIC;
    part := page[12..12 + Len(page)];
    link := NextPtr(page);
  }

  /** readOverflow gives back the data. */
  method ReadOverflow(store: ByteStore, first: nat, ghost ptrs: seq<nat>, ghost data: seq<byte>)
    returns (out: seq<byte>)
    requires Holds(store.pages, first, ptrs, data)
    ensures out == data
  {
    out := [];
    var ptr := first;
    ghost var i := 0;
    while ptr != 0
      invariant i <= |ptrs| && ptr == Link(ptrs, i) && out == Front(data, i)
      decreases |ptrs| - i
    {
      FrontStep(data, i);
      assert PageAt(store.pages, ptrs[i], Chunk(data, i), Link(ptrs, i + 1));
      var ok, part, link := ReadPage(store, ptr, Chunk(data, i), Link(ptrs, i + 1));
      if !ok {
        break;
      }
      out, ptr := out + part, link;
      i := i + 1;
    }
    FrontAll(data);
  }

  lemma SetOfNext(ptrs: seq<nat>, i: nat)
    requires Distinct(ptrs) && i < |ptrs|
    ensures ptrs[i] in SetOf(ptrs) && ptrs[i] !in SetOf(ptrs[..i])
    ensures SetOf(ptrs[..i + 1]) == SetOf(ptrs[..i]) + {ptrs[i]}
  {
    SetOfAppend(ptrs[..i], ptrs[i]);
    assert ptrs[..i] + [ptrs[i]] == ptrs[..i + 1];
  }

  /** freeOverflow frees exactly the pages of the chain. */
  method FreeOverflow(store: ByteStore, first: nat, ghost ptrs: seq<nat>, ghost data: seq<byte>)
    requires store.Valid() && Holds(store.pages, first, ptrs, data) && SetOf(ptrs) <= store.live
    modifies store`live
    ensures store.Valid() && store.live == old(store.live) - SetOf(ptrs)
  {
    var ptr := first;
    ghost var i := 0;
    assert SetOf(ptrs[..0]) == {};
    while ptr != 0
      invariant i <= |ptrs| && ptr == Link(ptrs, i)
      invariant store.Valid() && store.live == old(store.live) - SetOf(ptrs[..i])
      decreases |ptrs| - i
    {
      var _, _, next := ReadPage(store, ptr, Chunk(data, i), Link(ptrs, i + 1));
      SetOfNext(ptrs, i);
      store.DelPage(ptr);
      ptr := next;
      i := i + 1;
    }
    assert ptrs[..i] == ptrs;
  }

  /** overflowSize is the number of pages that allocOverflow takes. */
  method OverflowSize(data: seq<byte>) returns (pages: nat)
    ensures pages == Chunks(|data|)
  {
    var n := |data|;
    pages := 0;
    while n > 0
      invariant n >= 0 && pages + Chunks(n) == Chunks(|data|)
    {
      pages := pages + 1;
      n := if n > CHUNK then n - CHUNK else 0;
    }
  }
}
