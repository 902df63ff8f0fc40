/**
 The free list of freelist.go, linked list pages of page numbers with a head and a tail, and
 the page allocator that kv.go builds from it. GetPage and SetPage are taken to see every list page
 as it was last written, a page that was just appended included. Over the page manager they do so
 only for pages that are not to be appended; PageReuse puts the two together.
 */
module FreeLists {

  /** Page numbers that fit a list page behind its link. */
  const CAP: nat := 511

  datatype ListPage = ListPage(next: nat, slots: seq<nat>)

  function NextInChain(chain: seq<nat>, j: nat): nat {
    if j + 1 < |chain| then chain[j + 1] else 0
  }

  /** The position that slot `s` of the `j`-th list page stands for. */
  function Pos(j: nat, s: nat): nat {
    511 * j + s
  }

  function PushedAt(pushed: seq<nat>, i: nat): nat {
    if i < |pushed| then pushed[i] else 0
  }

  function EmptyPage(): ListPage {
    ListPage(0, seq(CAP, _ => 0))
  }

  /** Distinct list pages below `end`, each linked to the next. */
  ghost predicate Linked(pages: map<nat, ListPage>, chain: seq<nat>, end: nat) {
    && (forall j :: 0 <= j < |chain| ==> 0 < chain[j] < end && chain[j] in pages)
    && (forall j :: 0 <= j < |chain| ==> |pages[chain[j]].slots| == CAP)
    && (forall j {:trigger NextInChain(chain, j)} :: 0 <= j < |chain| ==> pages[chain[j]].next == NextInChain(chain, j))
    && (forall i, j :: 0 <= i < j < |chain| ==> chain[i] != chain[j])
  }

  /** Position `i` of the pushed numbers is slot `i % CAP` of list page `i / CAP`; later slots are zero. */
  ghost predicate Slotted(pages: map<nat, ListPage>, chain: seq<nat>, end: nat, pushed: seq<nat>)
    requires Linked(pages, chain, end)
  {
    forall j, s :: 0 <= j < |chain| && 0 <= s < CAP ==> pages[chain[j]].slots[s] == PushedAt(pushed, Pos(j, s))
  }

  lemma SlotAt(pages: map<nat, ListPage>, chain: seq<nat>, end: nat, pushed: seq<nat>, j: nat, s: nat)
    requires Linked(pages, chain, end) && Slotted(pages, chain, end, pushed) && j < |chain| && s < CAP
    ensures pages[chain[j]].slots[s] == PushedAt(pushed, Pos(j, s))
    ensures pages[chain[j]].next == NextInChain(chain, j)
    ensures NextInChain(chain, j) != 0 <==> j + 1 < |chain|
  {
    if j + 1 < |chain| {
      assert chain[j + 1] > 0;
    }
  }

  lemma SlotWritten(pages: map<nat, ListPage>, chain: seq<nat>, end: nat, pushed: seq<nat>, ptr: nat)
    requires Linked(pages, chain, end) && Slotted(pages, chain, end, pushed)
    requires chain != [] && Pos(|chain| - 1, 0) <= |pushed| < Pos(|chain|, 0)
    ensures var tail := chain[|chain| - 1];
            var node := pages[tail];
            var pages' := pages[tail := node.(slots := node.slots[|pushed| - Pos(|chain| - 1, 0) := ptr])];
            Linked(pages', chain, end) && Slotted(pages', chain, end, pushed + [ptr])
  {
    var last := |chain| - 1;
    var node := pages[chain[last]];
    var pages' := pages[chain[last] := node.(slots := node.slots[|pushed| - Pos(last, 0) := ptr])];
    forall j, s | 0 <= j < |chain| && 0 <= s < CAP
      ensures pages'[chain[j]].slots[s] == PushedAt(pushed + [ptr], Pos(j, s))
    {
      assert pages[chain[j]].slots[s] == PushedAt(pushed, Pos(j, s));
      if j < last {
        assert Pos(j, s) < |pushed|;
      }
    }
  }

  lemma PageAdded(pages: map<nat, ListPage>, chain: seq<nat>, end: nat, pushed: seq<nat>)
    requires Linked(pages, chain, end) && Slotted(pages, chain, end, pushed)
    requires chain != [] && |pushed| == Pos(|chain|, 0) && end > 0
    ensures var tail := chain[|chain| - 1];
            var pages' := pages[end := EmptyPage()][tail := pages[tail].(next := end)];
            Linked(pages', chain + [end], end + 1) && Slotted(pages', chain + [end], end + 1, pushed)
  {
    var tail := chain[|chain| - 1];
    var pages' := pages[end := EmptyPage()][tail := pages[tail].(next := end)];
    var chain' := chain + [end];
    forall j | 0 <= j < |chain'| ensures pages'[chain'[j]].next == NextInChain(chain', j) {
      if j < |chain| - 1 {
        assert pages[chain[j]].next == NextInChain(chain, j);
      }
    }
    PageSlots(pages, chain, end, pushed, pages', chain');
  }

  lemma PageSlots(pages: map<nat, ListPage>, chain: seq<nat>, end: nat, pushed: seq<nat>,
                  pages': map<nat, ListPage>, chain': seq<nat>)
    requires Linked(pages, chain, end) && Slotted(pages, chain, end, pushed)
    requires chain' == chain + [end] && |pushed| == Pos(|chain|, 0) && Linked(pages', chain', end + 1)
    requires end in pages' && pages'[end] == EmptyPage()
    requires forall j :: 0 <= j < |chain| ==> chain[j] in pages' && pages'[chain[j]].slots == pages[chain[j]].slots
    ensures Slotted(pages', chain', end + 1, pushed)
  {
    forall j, s | 0 <= j < |chain'| && 0 <= s < CAP
      ensures pages'[chain'[j]].slots[s] == PushedAt(pushed, Pos(j, s))
    {
      if j < |chain| {
        assert pages[chain[j]].slots[s] == PushedAt(pushed, Pos(j, s));
      }
    }
  }

  lemma TailSlot(n: nat, k: nat)
    requires k > 0 && Pos(k - 1, 0) <= n < Pos(k, 0)
    ensures n % CAP == n - Pos(k - 1, 0)
  {
  }

  lemma TailFull(n: nat, k: nat)
    requires k > 0 && Pos(k - 1, 0) < n <= Pos(k, 0)
    ensures n % CAP == 0 <==> n == Pos(k, 0)
  {
  }

  /** The list pages to which a push writes its number: the first push appends one. */
  function ChainFor(chain: seq<nat>, end: nat): (r: seq<nat>)
    ensures r != []
  {
    if chain == [] then [end] else chain
  }

  function EndFor(chain: seq<nat>, end: nat): nat {
    if chain == [] then end + 1 else end
  }

  /** What a push does to the list pages: it writes the last one, and appends another when that is full. */
  ghost predicate PushStep(chain: seq<nat>, pages: map<nat, ListPage>, end: nat,
                           chain': seq<nat>, pages': map<nat, ListPage>, end': nat)
  {
    && KeptBut(ChainFor(chain, end), pages, pages')
    && (|| (chain' == ChainFor(chain, end) && end' == EndFor(chain, end))
        || (&& chain' == ChainFor(chain, end) + [EndFor(chain, end)] && end' == EndFor(chain, end) + 1
            && EndFor(chain, end) in pages' && pages'[EndFor(chain, end)] == EmptyPage()))
  }

  /** All list pages but the last are as before. */
  ghost predicate KeptBut(chain: seq<nat>, pages: map<nat, ListPage>, pages': map<nat, ListPage>) {
    forall j :: 0 <= j < |chain| - 1 ==> chain[j] in pages && chain[j] in pages' && pages'[chain[j]] == pages[chain[j]]
  }

  /** Increasing positions, all behind the head and among the first `n`. */
  ghost predicate Behind(popped: seq<nat>, n: nat, head: nat) {
    && (forall k :: 0 <= k < |popped| ==> popped[k] < head && popped[k] < n)
    && (forall k, l :: 0 <= k < l < |popped| ==> popped[k] < popped[l])
  }

  /** Only the first 64 positions of a list page. */
  predicate Early(popped: seq<nat>) {
    forall k :: 0 <= k < |popped| ==> popped[k] % 511 < 64
  }

  lemma PosSlot(j: nat, s: nat)
    requires s < 511
    ensures Pos(j, s) / 511 == j && Pos(j, s) % 511 == s
  {
  }

  lemma BehindMore(popped: seq<nat>, n: nat, head: nat, head': nat)
    requires Behind(popped, n, head) && head < head'
    ensures Behind(popped, n, head') && (head < n ==> Behind(popped + [head], n, head'))
  {
  }

  class FreeList {
    var headPage: nat
    var headSeq: nat
    var tailPage: nat
    var tailSeq: nat
    var pages: map<nat, ListPage>
    var end: nat  // the next page number that appending a page to the file gives

    ghost var pushed: seq<nat>  // every page number pushed, in order
    ghost var popped: seq<nat>  // the positions in `pushed` that were handed out, in order
    ghost var chain: seq<nat>   // the list pages, from the first one on
    ghost var headIdx: nat      // where the head page is in `chain`

    /** Position in `pushed` that the head looks at. */
    ghost function HeadPos(): nat
      reads this
    {
      Pos(headIdx, headSeq)
    }

    ghost predicate Valid()
      reads this
    {
      ChainOk() && HeadOk() && PoppedOk()
    }

    /** The head has left the last list page. */
    predicate RunOff()
      reads `headPage, `tailPage
    {
      headPage == 0 && tailPage != 0
    }

    ghost predicate ChainOk()
      reads `end, `tailSeq, `tailPage, `pushed, `chain, `pages
    {
      && end > 0 && tailSeq == |pushed|
      && (tailPage == 0 <==> chain == [])
      && (chain == [] ==> tailSeq == 0)
      && (chain != [] ==> tailPage == chain[|chain| - 1] && Pos(|chain| - 1, 0) <= tailSeq < Pos(|chain|, 0))
      && (forall i :: 0 <= i < |pushed| ==> pushed[i] != 0)
      && Linked(pages, chain, end) && Slotted(pages, chain, end, pushed)
    }

    ghost predicate HeadOk()
      reads `headPage, `headSeq, `headIdx, `chain
    {
      && (chain == [] ==> headPage == 0 && headIdx == 0 && headSeq == 0)
      && (headPage != 0 ==> headIdx < |chain| && headPage == chain[headIdx] && headSeq < 64)
    }

    /** What was handed out lies behind the head and was handed out in the order of pushing. */
    ghost predicate PoppedOk()
      reads `headSeq, `headIdx, `popped, `pushed
    {
      Behind(popped, |pushed|, Pos(headIdx, headSeq)) && Early(popped)
    }

    constructor (end: nat)
      requires end > 0
      ensures Valid() && this.end == end && pushed == [] && popped == [] && chain == []
    {
      this.end := end;
      headPage, headSeq, tailPage, tailSeq, pages := 0, 0, 0, 0, map[];
      pushed, popped, chain, headIdx := [], [], [], 0;
    }

    /** pg.Alloc: a page at the end of the file. */
    method NewListPage() returns (ptr: nat)
      modifies `end, `pages
      ensures ptr == old(end) && end == old(end) + 1
      ensures pages == old(pages)[ptr := EmptyPage()]
    {
      ptr := end;
      end := end + 1;
      pages := pages[ptr := EmptyPage()];
    }

    /** pg.Alloc for a page of the tree. */
    method Append() returns (ptr: nat)
      requires Valid()
      modifies `end
      ensures Valid() && ptr == old(end) && end == old(end) + 1
    {
      ptr := end;
      end := end + 1;
    }

    /**
     PopHead. A non-zero result is the number pushed at the head's position, handed out now for
     the first time and after everything handed out before. The head never looks back.
     */
    method PopHead() returns (ptr: nat)
      requires Valid()
      modifies `headPage, `headSeq, `headIdx, `popped
      ensures Valid()
      ensures ptr == 0 ==> popped == old(popped)
      ensures ptr != 0 ==> && popped == old(popped) + [old(HeadPos())]
                           && old(HeadPos()) < |pushed| && ptr == pushed[old(HeadPos())]
      ensures ptr != 0 <==> old(headPage) != 0 && old(HeadPos()) < |pushed|
      ensures old(HeadPos()) <= HeadPos()
      ensures old(headPage) != 0 && old(headSeq) < 63 ==> headPage == old(headPage) && HeadPos() == old(HeadPos()) + 1
      ensures old(headPage) != 0 && old(headSeq) == 63 ==>
                if |pushed| < 511 * (old(headIdx) + 1) then headPage == 0
                else headPage != 0 && HeadPos() == 511 * (old(headIdx) + 1)
      ensures old(headPage) == 0 ==> headPage == 0 && HeadPos() == old(HeadPos())
      ensures old(RunOff()) ==> RunOff() && ptr == 0
    {
      if headPage == 0 {
        return 0;
      }
      SlotAt(pages, chain, end, pushed, headIdx, headSeq);
      PosSlot(headIdx, headSeq);
      LastIff(headIdx);
      var node := pages[headPage];
      ptr := node.slots[headSeq];
      ghost var at := HeadPos();
      Advance(node.next);
      BehindMore(popped, |pushed|, at, HeadPos());
      if ptr != 0 {
        popped := popped + [at];
      }
    }

    /** A list page is the last one exactly while fewer numbers were pushed than fill it and those before. */
    lemma LastIff(j: nat)
      requires ChainOk() && j < |chain|
      ensures NextInChain(chain, j) == 0 <==> |pushed| < 511 * (j + 1)
    {
      if j + 1 < |chain| {
        assert chain[j + 1] > 0;
      }
    }

    /** The numbers pushed are in the slots of the list pages, 511 to a page, in the order of pushing. */
    lemma ListHolds(i: nat)
      requires Valid() && i < |pushed|
      ensures |chain| == |pushed| / 511 + 1 && chain[i / 511] in pages && |pages[chain[i / 511]].slots| == 511
      ensures pages[chain[i / 511]].slots[i % 511] == pushed[i]
      ensures pages[chain[i / 511]].next == if i / 511 + 1 < |chain| then chain[i / 511 + 1] else 0
      ensures i in popped ==> i % 511 < 64
    {
      var j, s := i / 511, i % 511;
      SlotAt(pages, chain, end, pushed, j, s);
      assert Pos(j, s) == i;
    }

    /** The NewPage closure: the page at the head, or else one at the end of the file. */
    method Take() returns (ptr: nat)
      requires Valid()
      modifies `headPage, `headSeq, `headIdx, `popped, `end
      ensures Valid()
      ensures if old(headPage != 0 && HeadPos() < |pushed|)
              then ptr == pushed[old(HeadPos())] && end == old(end) && popped == old(popped) + [old(HeadPos())]
              else ptr == old(end) && end == old(end) + 1 && popped == old(popped)
      ensures old(headPage) != 0 && old(headSeq) < 63 ==> headPage == old(headPage) && HeadPos() == old(HeadPos()) + 1
      ensures old(headPage) == 0 ==> headPage == 0 && HeadPos() == old(HeadPos())
    {
      ptr := PopHead();
      if ptr == 0 {
        ptr := Append();
      }
    }

    /** The end of PopHead: after 64 slots the head goes on to the next list page, if there is one. */
    method Advance(next: nat)
      requires HeadOk() && headPage != 0 && next == NextInChain(chain, headIdx)
      requires forall j :: 0 <= j < |chain| ==> chain[j] > 0
      modifies `headPage, `headSeq, `headIdx
      ensures HeadOk() && HeadPos() > old(HeadPos())
      ensures old(headSeq) < 63 ==> headPage == old(headPage) && HeadPos() == old(HeadPos()) + 1
      ensures old(headSeq) == 63 ==> headPage == next && (next != 0 ==> HeadPos() == Pos(old(headIdx) + 1, 0))
    {
      headSeq := headSeq + 1;
      if headSeq * 8 >= CAP {
        if next != 0 {
          headSeq := 0;
          headIdx := headIdx + 1;
        }
        headPage := next;
      }
    }

    /** PushTail: the next slot of the tail page, and a new tail page when it is full. */
    method PushTail(ptr: nat)
      requires Valid() && ptr != 0
      modifies this
      ensures Valid()
      ensures pushed == old(pushed) + [ptr] && popped == old(popped) && HeadPos() == old(HeadPos())
      ensures old(chain) <= chain && old(end) <= end
      ensures forall j :: |old(chain)| <= j < |chain| ==> old(end) <= chain[j] < end
      ensures headPage == if old(tailPage) == 0 then chain[0] else old(headPage)
      ensures PushStep(old(chain), old(pages), old(end), chain, pages, end)
      ensures tailPage == if old(tailPage) == 0 || |pushed| % 511 == 0 then old(end) else old(tailPage)
      ensures old(RunOff()) ==> RunOff()
    {
      if tailPage == 0 {
        FirstPage();
      }
      PushOnto(ptr);
    }

    method PushOnto(ptr: nat)
      requires Valid() && tailPage != 0 && ptr != 0
      modifies `pages, `pushed, `tailSeq, `end, `chain, `tailPage
      ensures Valid() && pushed == old(pushed) + [ptr]
      ensures old(chain) <= chain && old(end) <= end
      ensures forall j :: |old(chain)| <= j < |chain| ==> old(end) <= chain[j] < end
      ensures PushStep(old(chain), old(pages), old(end), chain, pages, end)
      ensures tailPage == if |pushed| % 511 == 0 then old(end) else old(tailPage)
    {
      ExtendChain(ptr);
    }

    method ExtendChain(ptr: nat)
      requires ChainOk() && tailPage != 0 && ptr != 0
      modifies `pages, `pushed, `tailSeq, `end, `chain, `tailPage
      ensures ChainOk() && pushed == old(pushed) + [ptr]
      ensures old(chain) <= chain && old(end) <= end
      ensures forall j :: |old(chain)| <= j < |chain| ==> old(end) <= chain[j] < end
      ensures PushStep(old(chain), old(pages), old(end), chain, pages, end)
      ensures tailPage == if |pushed| % 511 == 0 then old(end) else old(tailPage)
    {
      WriteSlot(ptr);
      TailFull(tailSeq, |chain|);
      if tailSeq % CAP == 0 {
        AddPage();
      }
    }

    method WriteSlot(ptr: nat)
      requires ChainOk() && tailPage != 0 && ptr != 0
      modifies `pages, `pushed, `tailSeq
      ensures pushed == old(pushed) + [ptr] && tailSeq == |pushed| && forall i :: 0 <= i < |pushed| ==> pushed[i] != 0
      ensures Linked(pages, chain, end) && Slotted(pages, chain, end, pushed)
      ensures forall p :: p in old(pages) && p != tailPage ==> p in pages && pages[p] == old(pages)[p]
    {
      SlotWritten(pages, chain, end, pushed, ptr);
      TailSlot(tailSeq, |chain|);
      var node := pages[tailPage];
      var idx := tailSeq % CAP;
      pages := pages[tailPage := node.(slots := node.slots[idx := ptr])];
      pushed := pushed + [ptr];
      tailSeq := tailSeq + 1;
    }

    method AddPage()
      requires Linked(pages, chain, end) && Slotted(pages, chain, end, pushed) && end > 0
      requires chain != [] && tailPage == chain[|chain| - 1] && |pushed| == Pos(|chain|, 0)
      modifies `pages, `end, `chain, `tailPage
      ensures chain == old(chain) + [old(end)] && end == old(end) + 1 && tailPage == old(end)
      ensures Linked(pages, chain, end) && Slotted(pages, chain, end, pushed)
      ensures old(end) in pages && pages[old(end)] == EmptyPage()
      ensures forall p :: p in old(pages) && p != old(tailPage) && p != old(end) ==>
        p in pages && pages[p] == old(pages)[p]
    {
      PageAdded(pages, chain, end, pushed);
      var node := pages[tailPage];
      var next := NewListPage();
      pages := pages[tailPage := node.(next := next)];
      chain := chain + [next];
      tailPage := next;
    }

    method FirstPage()
      requires Valid() && tailPage == 0
      modifies `end, `pages, `tailPage, `headPage, `chain, `headIdx, `headSeq
      ensures Valid() && chain == [old(end)] && end == old(end) + 1 && headPage == tailPage == old(end)
      ensures HeadPos() == old(HeadPos()) && pages == old(pages)[old(end) := EmptyPage()]
    {
      tailPage := NewListPage();
      headPage := tailPage;
      chain := [tailPage];
    }
  }

  /** The page number at this position is waiting in the list: pushed and not handed out. */
  ghost predicate Waiting(pushed: seq<nat>, popped: seq<nat>, i: nat) {
    i < |pushed| && i !in popped
  }

  /** Live pages, waiting pages and list pages are different pages, and none waits twice. */
  ghost predicate Apart(live: set<nat>, pushed: seq<nat>, popped: seq<nat>, chain: seq<nat>, end: nat) {
    && (forall p :: p in live ==> 0 < p < end && p !in chain)
    && (forall i: nat :: Waiting(pushed, popped, i) ==>
          0 < pushed[i] < end && pushed[i] !in live && pushed[i] !in chain)
    && (forall i: nat, j: nat :: i < j && Waiting(pushed, popped, i) && Waiting(pushed, popped, j) ==>
          pushed[i] != pushed[j])
  }

  lemma ApartPop(live: set<nat>, pushed: seq<nat>, popped: seq<nat>, chain: seq<nat>, end: nat, at: nat)
    requires Apart(live, pushed, popped, chain, end) && Waiting(pushed, popped, at)
    ensures Apart(live + {pushed[at]}, pushed, popped + [at], chain, end)
    ensures pushed[at] !in live && pushed[at] !in chain
  {
    forall i: nat | Waiting(pushed, popped + [at], i) ensures Waiting(pushed, popped, i) && pushed[i] != pushed[at] {
      assert Waiting(pushed, popped, i) && i != at;
    }
  }

  lemma ApartAppend(live: set<nat>, pushed: seq<nat>, popped: seq<nat>, chain: seq<nat>, end: nat)
    requires Apart(live, pushed, popped, chain, end) && end > 0
    requires forall j :: 0 <= j < |chain| ==> chain[j] < end
    ensures Apart(live + {end}, pushed, popped, chain, end + 1)
    ensures end !in live && end !in chain
  {
  }

  lemma ApartPush(live: set<nat>, pushed: seq<nat>, popped: seq<nat>, chain: seq<nat>, end: nat, ptr: nat,
                  chain': seq<nat>, end': nat)
    requires Apart(live, pushed, popped, chain, end) && ptr in live
    requires forall k :: 0 <= k < |popped| ==> popped[k] < |pushed|
    requires chain <= chain' && end <= end' && forall j :: |chain| <= j < |chain'| ==> end <= chain'[j]
    ensures Apart(live - {ptr}, pushed + [ptr], popped, chain', end')
  {
    var pushed' := pushed + [ptr];
    forall p: nat | p < end && p !in chain ensures p !in chain' {
      forall j | 0 <= j < |chain'| ensures chain'[j] != p {
        if j < |chain| { assert chain'[j] == chain[j]; }
      }
    }
    forall i: nat | Waiting(pushed', popped, i) && i < |pushed|
      ensures Waiting(pushed, popped, i) && pushed'[i] == pushed[i]
    {
    }
  }

  class Allocator {
    const free: FreeList
    ghost var live: set<nat>  // pages of the tree

    ghost predicate Valid()
      reads this, free
    {
      free.Valid() && Apart(live, free.pushed, free.popped, free.chain, free.end)
    }

    constructor (end: nat)
      requires end > 0
      ensures Valid() && fresh(free) && live == {} && free.pushed == [] && free.end == end
      ensures free.headPage == 0 && free.tailPage == 0 && free.HeadPos() == 0
    {
      free := new FreeList(end);
      live := {};
    }

    /**
     NewPage never gives out a page of the tree or of the list. It reuses the page that was freed
     first among those the head has yet to pass, and otherwise extends the file by one page. Once the
     head has run off the list, it always extends the file.
     */
    method NewPage() returns (ptr: nat)
      requires Valid()
      modifies this, free
      ensures Valid() && live == old(live) + {ptr}
      ensures ptr != 0 && ptr !in old(live) && ptr !in free.chain
      ensures free.pushed == old(free.pushed) && free.chain == old(free.chain) && free.pages == old(free.pages)
      ensures if old(free.headPage != 0 && free.HeadPos() < |free.pushed|)
              then && ptr == free.pushed[old(free.HeadPos())] && free.end == old(free.end)
                   && free.popped == old(free.popped) + [old(free.HeadPos())]
              else && ptr == old(free.end) && free.end == old(free.end) + 1 && free.popped == old(free.popped)
      ensures old(free.headPage) != 0 && old(free.headSeq) < 63 ==>
        free.headPage == old(free.headPage) && free.HeadPos() == old(free.HeadPos()) + 1
      ensures old(free.headPage) == 0 ==> free.headPage == 0 && free.HeadPos() == old(free.HeadPos())
      ensures old(free.RunOff()) ==> free.RunOff() && ptr == old(free.end)
    {
      ghost var at, popped, end := free.HeadPos(), free.popped, free.end;
      ptr := free.Take();
      if free.end == end {
        ApartPop(live, free.pushed, popped, free.chain, end, at);
      } else {
        ApartAppend(live, free.pushed, popped, free.chain, end);
      }
      live := live + {ptr};
    }

    /** DelPage: only pages of the tree are freed. */
    method DelPage(ptr: nat)
      requires Valid() && ptr in live
      modifies this, free
      ensures Valid() && live == old(live) - {ptr}
      ensures free.pushed == old(free.pushed) + [ptr] && free.popped == old(free.popped)
      ensures free.HeadPos() == old(free.HeadPos())
      ensures if old(free.tailPage) == 0 then free.headPage != 0 else free.headPage == old(free.headPage)
      ensures old(free.end) <= free.end
      ensures PushStep(old(free.chain), old(free.pages), old(free.end), free.chain, free.pages, free.end)
      ensures free.tailPage
           == if old(free.tailPage) == 0 || |free.pushed| % 511 == 0 then old(free.end) else old(free.tailPage)
      ensures old(free.RunOff()) ==> free.RunOff()
    {
      ghost var chain, end := free.chain, free.end;
      free.PushTail(ptr);
      ApartPush(live, old(free.pushed), free.popped, chain, end, ptr, free.chain, free.end);
      live := live - {ptr};
    }

    /**
     The head is not held back to what was freed before the current operation. A page freed now is
     the page handed out next if and only if the head has caught up with the tail and has not run
     off the list; the first page ever freed is always such a page.
     */
    method ReuseAtOnce(ptr: nat) returns (r: nat)
      requires Valid() && ptr in live
      modifies this, free
      ensures Valid() && free.pushed == old(free.pushed) + [ptr]
      ensures live == old(live) - {ptr} + {r} && r != 0 && r !in old(live) - {ptr}
      ensures r == ptr <==> old((free.headPage != 0 || free.tailPage == 0) && free.HeadPos() == |free.pushed|)
    {
      ghost var at := free.HeadPos();
      assert at < |free.pushed| ==> Waiting(free.pushed, free.popped, at) && free.pushed[at] != ptr;
      assert free.tailPage == 0 ==> at == 0 == |free.pushed|;
      DelPage(ptr);
      assert ptr < old(free.end) <= free.end;
      r := NewPage();
    }
  }
}
