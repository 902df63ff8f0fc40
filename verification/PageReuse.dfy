/**
 The free list over the page manager, as the closures of kv.go put them together, and the two before
 the disk: what becomes of the tree on disk when an operation frees one of its pages and then writes
 the page that it is given next.
 */
module PageReuse {
  import opened Bytes
  import opened Disks
  import opened FreeLists
  import opened NodeSize
  import opened PageManagers

  /** A page in memory: a list page, or any other. */
  datatype Body = ListBody(list: ListPage) | NodeBody(block: Block)

  type Manager = PageMgr<Body>

  /**
   The page manager in step with a free list: the next page number is the same, and for every list page
   there is staged what the free list has written to it.
   */
  ghost predicate InStep(chain: seq<nat>, pages: map<nat, ListPage>, end: nat, pm: Manager)
    reads pm
  {
    && pm.Ready() && pm.flushed > 0 && end == pm.flushed + |pm.temp|
    && ListStaged(chain, pages, pm.file, pm.flushed, pm.temp, pm.updates)
    && forall p :: p in pm.updates ==> p < end
  }

  ghost predicate ListStaged(chain: seq<nat>, pages: map<nat, ListPage>, file: seq<Body>, flushed: nat,
                             temp: seq<Body>, updates: map<nat, Body>)
    requires flushed <= 1 || flushed <= |file|
  {
    forall j :: 0 <= j < |chain| ==>
      && 0 < chain[j] < flushed + |temp| && chain[j] in pages
      && StagedIn(file, flushed, temp, updates, chain[j]) == ListBody(pages[chain[j]])
  }

  ghost predicate Together(a: Allocator, pm: Manager)
    reads a, a.free, pm
  {
    a.Valid() && InStep(a.free.chain, a.free.pages, a.free.end, pm)
  }

  /** The list pages with the one that the first push appends. */
  function PagesFor(chain: seq<nat>, pages: map<nat, ListPage>, end: nat): map<nat, ListPage> {
    if chain == [] then pages[end := EmptyPage()] else pages
  }

  // ---------------------------------------------------------------------------------------
  // Freeing a page.
  // ---------------------------------------------------------------------------------------

  /** The list page that the next push writes to. */
  function TailFor(tail: nat, end: nat): nat {
    if tail == 0 then end else tail
  }

  /** What a list page holds, an appended one nothing yet. */
  function ListAt(p: nat, pages: map<nat, ListPage>): ListPage {
    if p in pages && p != 0 then pages[p] else EmptyPage()
  }

  /** The start of PushTail: the tail page, appended first if there is none, and SetPage on it. */
  method OpenTail(pm: Manager, tailPage: nat, page: ListPage, ghost chain: seq<nat>, ghost pages: map<nat, ListPage>,
                  ghost end: nat)
    returns (tail: nat, seen: bool)
    requires InStep(chain, pages, end, pm) && page == ListAt(tailPage, pages)
    requires if chain == [] then tailPage == 0 else tailPage == chain[|chain| - 1]
    modifies pm`temp, pm`updates
    ensures tail == TailFor(tailPage, end) && (seen <==> old(pm.Look(TailFor(tailPage, end))) == Page(ListBody(page)))
    ensures seen ==> tail in pm.updates && pm.updates.Keys == old(pm.updates.Keys) + {tail}
    ensures seen ==> InStep(ChainFor(chain, end), PagesFor(chain, pages, end), EndFor(chain, end), pm)
  {
    tail := tailPage;
    if tail == 0 {
      AddStaged(chain, PagesFor(chain, pages, end), pm.file, pm.flushed, pm.temp, pm.updates, end);
      tail := pm.Alloc(ListBody(page));
    }
    var r := pm.Write(tail);
    seen := r == Page(ListBody(page));
  }

  lemma AddStaged(chain: seq<nat>, pages: map<nat, ListPage>, file: seq<Body>, flushed: nat, temp: seq<Body>,
                  updates: map<nat, Body>, end: nat)
    requires (flushed <= 1 || flushed <= |file|) && 0 < end == flushed + |temp| && end !in updates
    requires ListStaged(chain, pages, file, flushed, temp, updates) && end in pages && pages[end] == EmptyPage()
    ensures ListStaged(chain + [end], pages, file, flushed, temp + [ListBody(EmptyPage())], updates)
  {
  }

  lemma PushStaged(chain: seq<nat>, pages: map<nat, ListPage>, pages': map<nat, ListPage>, file: seq<Body>,
                   flushed: nat, temp: seq<Body>, updates: map<nat, Body>, tail: nat)
    requires (flushed <= 1 || flushed <= |file|) && chain != [] && tail == chain[|chain| - 1]
    requires ListStaged(chain, pages, file, flushed, temp, updates) && tail in pages' && KeptBut(chain, pages, pages')
    requires forall i, j :: 0 <= i < j < |chain| ==> chain[i] != chain[j]
    ensures ListStaged(chain, pages', file, flushed, temp, updates[tail := ListBody(pages'[tail])])
  {
  }

  /** The writes of a push: its tail page, and another page behind it when that is full. */
  method StagePush(pm: Manager, tail: nat, page: ListPage, more: bool, ghost chain: seq<nat>,
                   ghost pages: map<nat, ListPage>, ghost end: nat, ghost chain': seq<nat>,
                   ghost pages': map<nat, ListPage>, ghost end': nat)
    requires InStep(ChainFor(chain, end), PagesFor(chain, pages, end), EndFor(chain, end), pm)
    requires PushStep(chain, pages, end, chain', pages', end') && Linked(pages', chain', end')
    requires var c := ChainFor(chain, end); tail == c[|c| - 1] && (more <==> chain' != c)
    requires tail in pages' && page == pages'[tail] && tail in pm.updates
    modifies pm`temp, pm`updates
    ensures InStep(chain', pages', end', pm) && pm.updates.Keys == old(pm.updates.Keys)
  {
    ghost var c, e, p := ChainFor(chain, end), EndFor(chain, end), PagesFor(chain, pages, end);
    assert forall j :: 0 <= j < |c| ==> c[j] == chain'[j];
    PushStaged(c, p, pages', pm.file, pm.flushed, pm.temp, pm.updates, tail);
    pm.Fill(tail, ListBody(page));
    if more {
      AddStaged(c, pages', pm.file, pm.flushed, pm.temp, pm.updates, e);
      var _ := pm.Alloc(ListBody(EmptyPage()));
    }
  }

  /**
   DelPage of kv.go. The free list gets its tail page as it was written if and only if the page
   manager sees it; a tail page that was just appended it does not see.
   */
  method DelPage(a: Allocator, pm: Manager, ptr: nat) returns (seen: bool)
    requires Together(a, pm) && ptr in a.live
    modifies a, a.free, pm`temp, pm`updates
    ensures seen <==> old(pm.Look(TailFor(a.free.tailPage, a.free.end))
                          == Page(ListBody(ListAt(a.free.tailPage, a.free.pages))))
    ensures seen ==> Together(a, pm) && a.live == old(a.live) - {ptr}
    ensures seen ==> pm.updates.Keys == old(pm.updates.Keys + {TailFor(a.free.tailPage, a.free.end)})
    ensures seen ==> a.free.pushed == old(a.free.pushed) + [ptr] && a.free.popped == old(a.free.popped)
    ensures seen ==> a.free.HeadPos() == old(a.free.HeadPos())
    ensures seen ==> a.free.headPage == old(if a.free.tailPage == 0 then a.free.end else a.free.headPage)
    ensures seen ==> a.free.tailPage == old(if |a.free.pushed + [ptr]| % 511 == 0 then a.free.end
                                            else TailFor(a.free.tailPage, a.free.end))
  {
    ghost var chain, pages, end := a.free.chain, a.free.pages, a.free.end;
    var tail;
    tail, seen := OpenTail(pm, a.free.tailPage, ListAt(a.free.tailPage, a.free.pages), chain, pages, end);
    if seen {
      PushSeen(a, pm, ptr, tail);
    }
  }

  /** The rest of a push, when the tail page is there to be written. */
  method PushSeen(a: Allocator, pm: Manager, ptr: nat, tail: nat)
    requires a.Valid() && ptr in a.live && tail == TailFor(a.free.tailPage, a.free.end) && tail in pm.updates
    requires InStep(ChainFor(a.free.chain, a.free.end), PagesFor(a.free.chain, a.free.pages, a.free.end),
                    EndFor(a.free.chain, a.free.end), pm)
    modifies a, a.free, pm`temp, pm`updates
    ensures Together(a, pm) && a.live == old(a.live) - {ptr} && pm.updates.Keys == old(pm.updates.Keys)
    ensures a.free.pushed == old(a.free.pushed) + [ptr] && a.free.popped == old(a.free.popped)
    ensures a.free.HeadPos() == old(a.free.HeadPos())
    ensures a.free.headPage == old(if a.free.tailPage == 0 then a.free.end else a.free.headPage)
    ensures a.free.tailPage == old(if |a.free.pushed + [ptr]| % 511 == 0 then a.free.end
                                   else TailFor(a.free.tailPage, a.free.end))
  {
    ghost var chain, pages, end := a.free.chain, a.free.pages, a.free.end;
    TailOf(a.free, chain, end);
    a.DelPage(ptr);
    TailAfter(a.free, chain, pages, end, tail);
    StagePush(pm, tail, a.free.pages[tail], a.free.tailPage != tail, chain, pages, end,
              a.free.chain, a.free.pages, a.free.end);
  }

  lemma TailOf(free: FreeList, chain: seq<nat>, end: nat)
    requires free.Valid() && chain == free.chain && end == free.end
    ensures var c := ChainFor(chain, end); TailFor(free.tailPage, end) == c[|c| - 1] < EndFor(chain, end)
  {
  }

  lemma TailAfter(free: FreeList, chain: seq<nat>, pages: map<nat, ListPage>, end: nat, tail: nat)
    requires free.Valid() && PushStep(chain, pages, end, free.chain, free.pages, free.end)
    requires var c := ChainFor(chain, end); tail == c[|c| - 1] < EndFor(chain, end)
    ensures Linked(free.pages, free.chain, free.end) && tail in free.pages
    ensures free.tailPage != tail <==> free.chain != ChainFor(chain, end)
  {
    var c := ChainFor(chain, end);
    assert free.chain[|c| - 1] == tail;
  }

  // ---------------------------------------------------------------------------------------
  // Handing out a page.
  // ---------------------------------------------------------------------------------------

  lemma OtherStaged(chain: seq<nat>, pages: map<nat, ListPage>, file: seq<Body>, flushed: nat, temp: seq<Body>,
                    updates: map<nat, Body>, p: nat, b: Body)
    requires (flushed <= 1 || flushed <= |file|) && ListStaged(chain, pages, file, flushed, temp, updates)
    requires p in chain ==> p in pages && b == ListBody(pages[p])
    ensures ListStaged(chain, pages, file, flushed, temp, updates[p := b])
    ensures ListStaged(chain, pages, file, flushed, temp + [b], updates)
  {
  }

  /** The list page that a head leaves when it goes from one page to another, or 0. */
  function LeftBy(head: nat, head': nat): nat {
    if head' == head then 0 else head
  }

  /** The pages to overwrite, with the list page that is left and the page that is reused. */
  function Touched(keys: set<nat>, left: nat, reused: bool, ptr: nat): set<nat> {
    keys + (if left != 0 then {left} else {}) + (if reused then {ptr} else {})
  }

  /** The writes of NewPage: the list page that the head leaves, and the page handed out. */
  method StageNew(pm: Manager, left: nat, ptr: nat, reused: bool, b: Block, ghost chain: seq<nat>,
                  ghost pages: map<nat, ListPage>, ghost end: nat)
    returns (seen: bool)
    requires InStep(chain, pages, end, pm) && ptr !in chain && if reused then ptr < end else ptr == end
    requires left == 0 || (left in chain && left in pages && pm.Look(left) == Page(ListBody(pages[left])))
    modifies pm`temp, pm`updates
    ensures seen <==> !reused || old(pm.Look(ptr).Page?)
    ensures seen ==> InStep(chain, pages, if reused then end else end + 1, pm)
    ensures seen ==> pm.updates.Keys == Touched(old(pm.updates.Keys), left, reused, ptr)
  {
    if left != 0 {
      OtherStaged(chain, pages, pm.file, pm.flushed, pm.temp, pm.updates, left, ListBody(pages[left]));
      var _ := pm.Write(left);
    }
    OtherStaged(chain, pages, pm.file, pm.flushed, pm.temp, pm.updates, ptr, NodeBody(b));
    seen := true;
    if reused {
      seen := Overwrite(pm, ptr, NodeBody(b));
    } else {
      var _ := pm.Alloc(NodeBody(b));
    }
  }

  /** Write and the copy into it. */
  method Overwrite(pm: Manager, ptr: nat, b: Body) returns (ok: bool)
    modifies pm`updates
    ensures ok <==> old(pm.Look(ptr).Page?)
    ensures pm.updates == if ok then old(pm.updates)[ptr := b] else old(pm.updates)
  {
    var r := pm.Write(ptr);
    ok := r.Page?;
    if ok {
      pm.Fill(ptr, b);
    }
  }

  /** The page manager sees the head page as it was written. */
  ghost predicate HeadSeen(a: Allocator, pm: Manager)
    reads a, a.free, pm
  {
    var head := a.free.headPage;
    head == 0 || (head in a.free.pages && pm.Look(head) == Page(ListBody(a.free.pages[head])))
  }

  /** Whether the next page handed out is one of the list, and which it is. */
  ghost predicate Reuses(a: Allocator)
    reads a, a.free
  {
    a.free.headPage != 0 && a.free.HeadPos() < |a.free.pushed|
  }

  ghost function Next(a: Allocator): nat
    reads a, a.free
  {
    NextOf(a.free.headPage, a.free.HeadPos(), a.free.pushed, a.free.end)
  }

  function NextOf(head: nat, at: nat, pushed: seq<nat>, end: nat): nat {
    if head != 0 && at < |pushed| then pushed[at] else end
  }

  /** GetPage on the head page. */
  method ReadHead(pm: Manager, head: nat, page: ListPage) returns (seen: bool)
    ensures seen <==> head == 0 || pm.Look(head) == Page(ListBody(page))
  {
    if head == 0 {
      return true;
    }
    var r := pm.Read(head);
    seen := r == Page(ListBody(page));
  }

  /**
   NewPage of kv.go: it reads the head page, and overwrites the page that comes from the list and a list page
   that the head leaves, and no other.
   */
  method NewPage(a: Allocator, pm: Manager, b: Block) returns (seen: bool, ptr: nat)
    requires Together(a, pm)
    modifies a, a.free, pm`temp, pm`updates
    ensures seen <==> old(HeadSeen(a, pm)) && old(Reuses(a) ==> pm.Look(Next(a)).Page?)
    ensures seen ==> Together(a, pm) && ptr == old(Next(a)) && a.live == old(a.live) + {ptr}
    ensures seen ==> pm.updates.Keys == Touched(old(pm.updates.Keys), LeftBy(old(a.free.headPage), a.free.headPage),
                                                old(Reuses(a)), ptr)
  {
    ptr := 0;
    var head, end := a.free.headPage, a.free.end;
    seen := ReadHead(pm, head, ListAt(head, a.free.pages));
    if seen {
      ptr := a.NewPage();
      seen := StageNew(pm, LeftBy(head, a.free.headPage), ptr, a.free.end == end, b, a.free.chain, a.free.pages, end);
    }
  }

  // ---------------------------------------------------------------------------------------
  // Before the disk.
  // ---------------------------------------------------------------------------------------

  /** The disk names one tree, whose pages are those that the allocator counts as live. */
  ghost predicate OnDisk(a: Allocator, disk: Disk, v: Version)
    reads a, disk
  {
    && Recoverable(disk.state.dur, {v}) && (exists m :: m in Possible(disk.state.dur, 0) && m != Torn)
    && v.pages.Keys == a.live && forall p :: p in v.pages ==> v.pages[p] != Torn
  }

  /** As at the start of an operation. */
  ghost predicate NothingStaged(pm: Manager)
    reads pm
  {
    pm.temp == [] && pm.updates == map[]
  }

  ghost predicate CaughtUp(a: Allocator)
    reads a, a.free
  {
    (a.free.headPage != 0 || a.free.tailPage == 0) && a.free.HeadPos() == |a.free.pushed|
  }

  /** A list page that is flushed is seen as it was written. */
  lemma FlushedSeen(chain: seq<nat>, pages: map<nat, ListPage>, end: nat, pm: Manager, p: nat)
    requires InStep(chain, pages, end, pm) && p in chain && (p < pm.flushed || p in pm.updates)
    ensures p in pages && pm.Look(p) == Page(ListBody(pages[p]))
  {
    var j :| 0 <= j < |chain| && chain[j] == p;
    pm.ReadIff(p);
  }

  /** The tail page is seen at the start of an operation if and only if there is one, or an empty one at the end. */
  lemma TailSeenIff(a: Allocator, pm: Manager)
    requires Together(a, pm) && NothingStaged(pm)
    ensures pm.Look(TailFor(a.free.tailPage, a.free.end)) == Page(ListBody(ListAt(a.free.tailPage, a.free.pages)))
       <==> a.free.tailPage != 0 || pm.Look(pm.flushed) == Page(ListBody(EmptyPage()))
  {
    if a.free.tailPage != 0 {
      assert a.free.tailPage in a.free.chain;
      FlushedSeen(a.free.chain, a.free.pages, a.free.end, pm, a.free.tailPage);
    }
  }

  /**
   An operation that frees a page and is undone, as rollback does it. The page manager is as it was, and shows
   the list page without the number; but the list still counts the page as freed. If the number filled its
   list page, the list goes on in a page with the number that the manager gives to the next page appended.
   */
  method UndoneFree(a: Allocator, pm: Manager, ptr: nat)
    requires Together(a, pm) && NothingStaged(pm) && ptr in a.live && a.free.tailPage != 0
    modifies a, a.free, pm`flushed, pm`temp, pm`updates
    ensures NothingStaged(pm) && pm.flushed == old(pm.flushed)
    ensures a.free.pushed == old(a.free.pushed) + [ptr] && ptr !in a.live
    ensures var tail, n := old(a.free.tailPage), |old(a.free.pushed)|;
            && tail in old(a.free.pages) && |old(a.free.pages)[tail].slots| == 511
            && pm.Look(tail) == Page(ListBody(old(a.free.pages)[tail])) && old(a.free.pages)[tail].slots[n % 511] == 0
            && a.free.tailPage == (if (n + 1) % 511 == 0 then pm.flushed else tail)
  {
    ReadyToFree(a, pm);
    var flushed := pm.flushed;
    var _ := DelPage(a, pm, ptr);
    pm.ResetTo(flushed);
  }

  lemma ReadyToFree(a: Allocator, pm: Manager)
    requires Together(a, pm) && NothingStaged(pm) && a.free.tailPage != 0
    ensures a.free.end == pm.flushed && a.free.tailPage in a.free.pages
    ensures |a.free.pages[a.free.tailPage].slots| == 511
    ensures a.free.pages[a.free.tailPage].slots[|a.free.pushed| % 511] == 0
    ensures pm.Look(a.free.tailPage) == Page(ListBody(a.free.pages[a.free.tailPage]))
  {
    EmptySlot(a.free);
    FlushedSeen(a.free.chain, a.free.pages, a.free.end, pm, a.free.tailPage);
  }

  lemma EmptySlot(free: FreeList)
    requires free.Valid() && free.tailPage != 0
    ensures free.tailPage in free.chain && free.tailPage in free.pages && |free.pages[free.tailPage].slots| == 511
    ensures free.pages[free.tailPage].slots[|free.pushed| % 511] == 0
  {
    var j, s := |free.pushed| / 511, |free.pushed| % 511;
    SlotAt(free.pages, free.chain, free.end, free.pushed, j, s);
    assert Pos(j, s) == |free.pushed|;
  }

  /** The page to be freed is flushed; so is the page at the head, which is not live. */
  ghost predicate FlushedSoFar(head: nat, tail: nat, at: nat, pushed: seq<nat>, live: set<nat>, flushed: nat,
                               ptr: nat)
  {
    && ptr < flushed && head < flushed
    && (head != 0 && at < |pushed| ==> pushed[at] < flushed && pushed[at] !in live)
    && (tail == 0 ==> head == 0 && pushed == [] && at == 0)
  }

  lemma AtStart(a: Allocator, pm: Manager, ptr: nat)
    requires Together(a, pm) && NothingStaged(pm) && ptr in a.live
    ensures FlushedSoFar(a.free.headPage, a.free.tailPage, a.free.HeadPos(), a.free.pushed, a.live, pm.flushed, ptr)
  {
    if Reuses(a) {
      assert Waiting(a.free.pushed, a.free.popped, a.free.HeadPos());
    }
  }

  /** What comes next once a live page has been freed. */
  lemma NextAfterFree(head: nat, tail: nat, at: nat, pushed: seq<nat>, live: set<nat>, flushed: nat, ptr: nat, end: nat)
    requires FlushedSoFar(head, tail, at, pushed, live, flushed, ptr) && ptr in live && 0 < flushed <= end
    requires end !in live - {ptr}
    ensures var next := NextOf(if tail == 0 then flushed else head, at, pushed + [ptr], end);
            && (next == ptr <==> (head != 0 || tail == 0) && at == |pushed|)
            && (next != ptr ==> next !in live)
            && ((tail == 0 || head != 0) && at < |pushed| + 1 ==> next < flushed)
  {
  }

  lemma EndNotLive(a: Allocator)
    requires a.Valid()
    ensures a.free.end !in a.live
  {
  }

  /** The head page is seen after the first free: it is flushed, or the page just written. */
  lemma HeadStillSeen(a: Allocator, pm: Manager)
    requires Together(a, pm) && (a.free.headPage < pm.flushed || a.free.headPage in pm.updates)
    ensures HeadSeen(a, pm)
  {
    if a.free.headPage != 0 {
      assert a.free.headPage in a.free.chain;
      FlushedSeen(a.free.chain, a.free.pages, a.free.end, pm, a.free.headPage);
    }
  }

  /** The first free of an operation. */
  method FreeFirst(a: Allocator, pm: Manager, ptr: nat) returns (seen: bool)
    requires Together(a, pm) && NothingStaged(pm) && ptr in a.live
    modifies a, a.free, pm`temp, pm`updates
    ensures seen <==> old(a.free.tailPage != 0 || pm.Look(pm.flushed) == Page(ListBody(EmptyPage())))
    ensures seen ==> Together(a, pm) && a.live == old(a.live) - {ptr} && HeadSeen(a, pm)
    ensures seen ==> (Reuses(a) ==> Next(a) < pm.flushed)
    ensures seen ==> if old(CaughtUp(a)) then Next(a) == ptr else Next(a) !in old(a.live)
  {
    TailSeenIff(a, pm);
    AtStart(a, pm, ptr);
    ghost var head, tail, at, pushed, live := a.free.headPage, a.free.tailPage, a.free.HeadPos(), a.free.pushed, a.live;
    seen := DelPage(a, pm, ptr);
    if seen {
      EndNotLive(a);
      NextAfterFree(head, tail, at, pushed, live, pm.flushed, ptr, a.free.end);
      HeadStillSeen(a, pm);
    }
  }

  lemma FlushedReadable(pm: Manager, p: nat)
    requires pm.Ready() && 0 < p < pm.flushed
    ensures pm.Look(p).Page?
  {
  }

  lemma NextPositive(a: Allocator)
    requires a.Valid() && Reuses(a)
    ensures Next(a) > 0
  {
  }

  /**
   An operation frees a page of the tree on disk and the next page handed out is written. The list sees
   its tail page if and only if it has one already, or the file goes on behind its last page with an
   empty one. Then a crash still finds the tree if and only if the head of the list had not caught up
   with its tail, or had run off the list. Where the page is not seen the method stops: the original
   faults if the file ends there, and otherwise goes on with what the file still holds.
   */
  method OverwriteFreed(a: Allocator, pm: Manager, disk: Disk, ptr: nat, b: Block, ghost v: Version)
    returns (seen: bool, r: nat)
    requires Together(a, pm) && NothingStaged(pm) && ptr in a.live && OnDisk(a, disk, v)
    modifies a, a.free, pm`temp, pm`updates, disk
    ensures seen <==> old(a.free.tailPage != 0 || pm.Look(pm.flushed) == Page(ListBody(EmptyPage())))
    ensures !seen ==> disk.state == old(disk.state)
    ensures seen ==> (Recoverable(disk.state.dur, {v}) <==> !old(CaughtUp(a)))
  {
    r := 0;
    seen := FreeFirst(a, pm, ptr);
    if seen {
      if Reuses(a) {
        NextPositive(a);
        FlushedReadable(pm, Next(a));
      }
      ghost var next := Next(a);
      seen, r := NewPage(a, pm, b);
      WriteFreed(disk, r, b, v);
    }
  }

  /** The page reaches the disk. */
  method WriteFreed(disk: Disk, r: nat, b: Block, ghost v: Version)
    requires r != 0 && Recoverable(disk.state.dur, {v}) && exists m :: m in Possible(disk.state.dur, 0) && m != Torn
    requires forall p :: p in v.pages ==> v.pages[p] != Torn
    modifies disk
    ensures Recoverable(disk.state.dur, {v}) <==> r !in v.pages
  {
    ghost var s := disk.state;
    var ok := disk.Write(map[r := b]);
    WriteSafeIff(s, map[r := b], ok, v);
    assert map[r := b].Keys == {r};
  }

  /** In a file that ends with its last page the first free of all never gets its list page. */
  lemma FirstFreeFaults(a: Allocator, pm: Manager)
    requires Together(a, pm) && NothingStaged(pm) && pm.Tight() && a.free.tailPage == 0
    ensures !pm.Look(TailFor(a.free.tailPage, a.free.end)).Page?
  {
  }

  /** Pages 1 and 2 are a tree; page 3 is a list page, whose one number has been handed out again. */
  method TwoPageTree() returns (a: Allocator)
    ensures fresh(a) && fresh(a.free) && a.Valid() && a.live == {1, 2} && a.free.end == 4 && a.free.chain == [3]
    ensures CaughtUp(a) && a.free.tailPage == 3
  {
    a := new Allocator(1);
    var _ := a.NewPage();
    var p := a.NewPage();
    a.DelPage(p);
    OneListPage(a.free);
    var _ := a.NewPage();
  }

  lemma OneListPage(free: FreeList)
    requires free.Valid() && |free.pushed| == 1
    ensures |free.chain| == 1 && free.tailPage == free.chain[0]
    ensures free.headPage != 0 ==> free.headPage == free.chain[0]
  {
  }

  /** That file in memory, with nothing staged. */
  method Open(a: Allocator) returns (pm: Manager)
    requires a.Valid() && a.free.end == 4 && a.free.chain == [3]
    ensures fresh(pm) && Together(a, pm) && NothingStaged(pm)
  {
    var list := ListBody(a.free.pages[3]);
    pm := new PageMgr([NodeBody(Meta(1, 4, [])), NodeBody(Data([1])), NodeBody(Data([2])), list], [16384], 4, list);
    SumOne(16384);
  }

  const TREE := Version(1, 4, map[1 := Data([1]), 2 := Data([2])], [])

  function TreeDisk(): DiskState {
    var c := map[0 := {Meta(1, 4, [])}, 1 := {Data([1])}, 2 := {Data([2])}, 3 := {Data([3])}];
    DiskState(c, c)
  }

  lemma TreeOnDisk(d: Contents)
    requires d == TreeDisk().dur
    ensures Recoverable(d, {TREE}) && TREE.pages.Keys == {1, 2} && Meta(1, 4, []) in Possible(d, 0)
  {
    assert Names(Meta(1, 4, []), TREE) && Settled(d, TREE);
  }

  /** The list page was flushed by an earlier operation: page 1 is freed, and overwritten at once. */
  method ReuseLosesTheTree(b: Block) returns (disk: Disk)
    ensures !Recoverable(disk.state.dur, {TREE})
  {
    var a := TwoPageTree();
    var pm := Open(a);
    disk := new Disk(TreeDisk());
    TreeOnDisk(disk.state.dur);
    var _, _ := OverwriteFreed(a, pm, disk, 1, b, TREE);
  }
}
