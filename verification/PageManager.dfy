/**
 The page manager of page.go: the pages of the file as its memory map shows them, pages to overwrite,
 and pages to append. A read looks at the first two only. It sees what is staged for a page exactly when
 the page is not one of those to append.
 */
module PageManagers {
  import opened Basics
  import opened NodeSize

  /** Pages of the smallest mapping, 64 MB. */
  const MIN_CHUNK: nat := 16384

  /** What a read gives: a page, the panic for a page beyond the map, or a fault beyond the end of the file. */
  datatype Seen<+T> = Page(page: T) | BadPtr | Fault

  /** The page that WriteAt leaves at each place; a gap reads as zeros. */
  function PageAfter<T>(file: seq<T>, w: map<nat, T>, zero: T, p: nat): T {
    if p in w then w[p] else if p < |file| then file[p] else zero
  }

  /** One WriteAt of a whole page. */
  function WriteAt<T>(file: seq<T>, p: nat, page: T, zero: T): (r: seq<T>)
    ensures |r| == if p < |file| then |file| else p + 1
    ensures forall q :: 0 <= q < |r| ==> r[q] == PageAfter(file, map[p := page], zero, q)
  {
    if p < |file| then file[p := page] else file + seq(p - |file|, _ => zero) + [page]
  }

  /** What page `p` is going to hold, by what is staged for it. */
  ghost function StagedIn<T>(file: seq<T>, flushed: nat, temp: seq<T>, updates: map<nat, T>, p: nat): T
    requires p < flushed + |temp| && (p < flushed ==> p < |file|)
  {
    if p in updates then updates[p] else if p < flushed then file[p] else temp[p - flushed]
  }

  /** `base`, or twice a doubling of it. */
  predicate Doubling(a: nat, base: nat) {
    a == base || (a > 0 && a % 2 == 0 && Doubling(a / 2, base))
  }

  lemma DoubleOnce(a: nat, base: nat)
    requires a > 0 && Doubling(a, base)
    ensures Doubling(a * 2, base) && a * 2 / 2 == a
  {
  }

  /** As long as all mappings before, or 16384 pages, or as few doublings of that as map all pages. */
  predicate ChunkFor(alloc: nat, total: nat, size: nat) {
    var base := if total < 16384 then 16384 else total;
    Doubling(alloc, base) && (alloc == base || total + alloc / 2 < size)
  }

  class PageMgr<T> {
    const zero: T
    var file: seq<T>       // the pages of the file
    var chunks: seq<nat>   // the lengths of the mappings, in pages
    var flushed: nat
    var temp: seq<T>
    var updates: map<nat, T>

    constructor (file: seq<T>, chunks: seq<nat>, flushed: nat, zero: T)
      ensures this.file == file && this.chunks == chunks && this.flushed == flushed && this.zero == zero
      ensures temp == [] && updates == map[]
    {
      this.file, this.chunks, this.flushed, this.zero := file, chunks, flushed, zero;
      temp, updates := [], map[];
    }

    ghost function Mapped(): nat
      reads `chunks
    {
      Sum(chunks)
    }

    /** Every page that is counted as flushed is in the file and mapped; page 0 is the meta page. */
    ghost predicate Ready()
      reads this
    {
      flushed <= 1 || (flushed <= |file| && flushed <= Mapped())
    }

    /** The file ends with its last flushed page, and no page to append has been overwritten. */
    ghost predicate Tight()
      reads this
    {
      Ready() && |file| <= flushed && forall p :: p in updates ==> p < flushed
    }

    /** What the page is going to hold. */
    ghost function Staged(ptr: nat): T
      requires Ready() && 0 < ptr < flushed + |temp|
      reads this
    {
      StagedIn(file, flushed, temp, updates, ptr)
    }

    ghost function Look(ptr: nat): Seen<T>
      reads this
    {
      if ptr in updates then Page(updates[ptr])
      else if ptr >= Mapped() then BadPtr
      else if ptr >= |file| then Fault
      else Page(file[ptr])
    }

    /** Read: the loop over the mappings. */
    method Read(ptr: nat) returns (r: Seen<T>)
      ensures r == Look(ptr)
    {
      if ptr in updates {
        return Page(updates[ptr]);
      }
      var start, i := 0, 0;
      assert chunks[..0] == [];
      while i < |chunks|
        invariant i <= |chunks| && start == Sum(chunks[..i]) <= ptr
      {
        SumStep(chunks, i);
        SumSplit(chunks, i + 1);
        if ptr < start + chunks[i] {
          return if ptr < |file| then Page(file[ptr]) else Fault;
        }
        start := start + chunks[i];
        i := i + 1;
      }
      assert chunks[..i] == chunks;
      return BadPtr;
    }

    /** A page handed out is seen as staged if and only if it is not an appended one, or the file has it already. */
    lemma ReadIff(ptr: nat)
      requires Ready() && 0 < ptr < flushed + |temp|
      ensures Look(ptr) == Page(Staged(ptr))
         <==> || ptr in updates || ptr < flushed
              || (ptr < Mapped() && ptr < |file| && file[ptr] == temp[ptr - flushed])
    {
    }

    /** In a file that ends with its last page: if and only if it is not an appended one. No other read gives a page. */
    lemma ReadSeesIff(ptr: nat)
      requires Tight() && 0 < ptr < flushed + |temp|
      ensures Look(ptr) == Page(Staged(ptr)) <==> ptr < flushed
      ensures Look(ptr).Page? <==> ptr < flushed
    {
    }

    /** Alloc: the number after all pages, and nothing else changes. */
    method Alloc(page: T) returns (ptr: nat)
      modifies `temp
      ensures ptr == old(flushed + |temp|) && temp == old(temp) + [page]
      ensures old(Tight()) ==> Tight()
    {
      ptr := flushed + |temp|;
      temp := temp + [page];
    }

    /** Write: the caller gets a copy to fill, which starts as what a read gives. */
    method Write(ptr: nat) returns (r: Seen<T>)
      modifies `updates
      ensures r == old(Look(ptr))
      ensures updates == if r.Page? then old(updates)[ptr := r.page] else old(updates)
      ensures old(Tight()) && ptr < flushed + |temp| ==> Tight()
    {
      r := Read(ptr);
      if r.Page? {
        updates := updates[ptr := r.page];
      }
    }

    /** The caller fills its copy. */
    method Fill(ptr: nat, page: T)
      requires ptr in updates
      modifies `updates
      ensures updates == old(updates)[ptr := page]
    {
      updates := updates[ptr := page];
    }

    /**
     ExtendMMap: one more mapping, as long as all before it and at least 16384 pages, doubled until all pages
     are mapped and not once more.
     */
    method ExtendMMap(size: nat) returns (ok: bool)
      modifies `chunks
      ensures old(Mapped()) <= Mapped() && (ok ==> size <= Mapped()) && (!ok ==> chunks == old(chunks))
      ensures ok ==>
        if size <= old(Mapped()) then chunks == old(chunks)
        else
          var alloc := Mapped() - old(Mapped());
          chunks == old(chunks) + [alloc] && ChunkFor(alloc, old(Mapped()), size)
    {
      var total := Total();
      if size <= total {
        return true;
      }
      var alloc := NextChunk(total, size);
      ok := *;
      if ok {
        SumConcat(chunks, [alloc]);
        SumOne(alloc);
        chunks := chunks + [alloc];
      }
    }

    /** The size of the next mapping. */
    method NextChunk(total: nat, size: nat) returns (alloc: nat)
      ensures size <= total + alloc && ChunkFor(alloc, total, size)
    {
      alloc := if total < MIN_CHUNK then MIN_CHUNK else total;
      while total + alloc < size
        invariant alloc > 0 && ChunkFor(alloc, total, size)
        decreases size - alloc
      {
        DoubleOnce(alloc, if total < 16384 then 16384 else total);
        alloc := alloc * 2;
      }
    }

    method Total() returns (total: nat)
      ensures total == Mapped()
    {
      total := 0;
      var i := 0;
      assert chunks[..0] == [];
      while i < |chunks|
        invariant i <= |chunks| && total == Sum(chunks[..i])
      {
        SumStep(chunks, i);
        total := total + chunks[i];
        i := i + 1;
      }
      assert chunks[..i] == chunks;
    }

    /** The loop over the pages to overwrite, in whatever order the map gives them. */
    method WriteUpdates() returns (ok: bool)
      modifies `file
      ensures |old(file)| <= |file| && (|file| == |old(file)| || exists p :: p in updates && |file| == p + 1)
      ensures ok ==> forall p :: p in updates ==> p < |file|
      ensures ok ==> forall q :: 0 <= q < |file| ==> file[q] == PageAfter(old(file), updates, zero, q)
    {
      var left := updates.Keys;
      while left != {}
        invariant left <= updates.Keys && |old(file)| <= |file| && forall p :: p in updates && p !in left ==> p < |file|
        invariant forall q :: 0 <= q < |file| ==> file[q] == PageAfter(old(file), updates - left, zero, q)
        invariant |file| == |old(file)| || exists p :: p in updates && |file| == p + 1
        decreases left
      {
        ok := *;
        if !ok {
          return;
        }
        var p :| p in left;
        file := WriteAt(file, p, updates[p], zero);
        left := left - {p};
      }
      assert updates - left == updates;
      ok := true;
    }

    /** The pages to append, in one write behind the flushed ones. */
    method AppendPages()
      modifies `file, `flushed, `temp
      ensures flushed == old(flushed + |temp|) && temp == [] && |old(file)| <= |file| && flushed <= |file|
      ensures |file| == |old(file)| || |file| == flushed
      ensures forall q :: 0 <= q < |file| ==>
        file[q] == if old(flushed) <= q < flushed then old(temp)[q - old(flushed)]
                   else if q < |old(file)| then old(file)[q] else zero
    {
      var i := 0;
      var t := temp;
      if |file| < flushed {
        file := file + seq(flushed - |file|, _ => zero);
      }
      while i < |t|
        invariant i <= |t| && flushed == old(flushed) && |old(file)| <= |file| && flushed + i <= |file|
        invariant |file| == |old(file)| || |file| == flushed + i
        invariant forall q :: 0 <= q < |file| ==>
          file[q] == if flushed <= q < flushed + i then t[q - flushed]
                     else if q < |old(file)| then old(file)[q] else zero
      {
        file := WriteAt(file, flushed + i, t[i], zero);
        i := i + 1;
      }
      flushed, temp := flushed + |t|, [];
    }

    /**
     FlushPages. If no write fails, the file holds what was staged for every page if and only if no
     page to append was overwritten with something else: the appended pages are written last.
     */
    method FlushPages() returns (ok: bool)
      requires Ready()
      modifies `file, `chunks, `flushed, `temp
      ensures ok ==> Ready() && flushed == old(flushed + |temp|) && temp == []
      ensures ok ==>
        ((forall p :: 0 < p < flushed ==> p < |file| && file[p] == old(Staged(p)))
         <==> forall p :: p in updates && 0 < p < flushed && old(flushed) <= p ==>
                updates[p] == old(temp)[p - old(flushed)])
      ensures ok && old(Tight()) ==> Tight()
    {
      if temp == [] && updates == map[] {
        return true;
      }
      ok := ExtendMMap(flushed + |temp|);
      if !ok {
        return;
      }
      ok := WriteUpdates();
      if !ok {
        return;
      }
      if temp != [] {
        AppendPages();
      }
      assert forall p :: p in updates && 0 < p < flushed ==> old(Staged(p)) == updates[p];
      assert forall p :: 0 < p < flushed && old(flushed) <= p ==> file[p] == old(temp)[p - old(flushed)];
    }

    method ClearUpdates()
      modifies `temp, `updates
      ensures temp == [] && updates == map[]
    {
      temp, updates := [], map[];
    }

    method ResetTo(n: nat)
      modifies `flushed, `temp, `updates
      ensures flushed == n && temp == [] && updates == map[]
      ensures old(Ready()) && n <= old(flushed) ==> Ready()
    {
      flushed, temp, updates := n, [], map[];
    }
  }
}
