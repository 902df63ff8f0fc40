/**
 The page store behind the tree's GetPage, NewPage and DelPage callbacks, and how a tree lies
 in it. The allocator may hand out any page number that is neither live nor pinned; a page
 that was freed keeps its contents until its number is handed out again.
 */
module PageStores {
  import opened NodeSize
  import opened Nodes

  /** What NewPage may do: any page number that is not in use and not pinned, and only that page is written. */
  predicate NewPageStep(pages: map<nat, Node>, live: set<nat>, pinned: set<nat>, node: Node,
                        ptr: nat, pages': map<nat, Node>, live': set<nat>)
  {
    ptr != 0 && ptr !in live && ptr !in pinned && live' == live + {ptr} && pages' == pages[ptr := node]
  }

  class PageStore {
    var pages: map<nat, Node>
    var live: set<nat>
    /** Pages that the allocator must leave alone, for readers of an earlier root. */
    var pinned: set<nat>

    /** Page numbers in use are non-zero and have contents. */
    ghost predicate Valid()
      reads this
    {
      0 !in live && live <= pages.Keys
    }

    constructor ()
      ensures pages == map[] && live == {} && pinned == {} && Valid()
    {
      pages, live, pinned := map[], {}, {};
    }

    method PinLive()
      modifies `pinned
      ensures pinned == old(pinned) + live
    {
      pinned := pinned + live;
    }

    /** Only live or pinned pages are ever read. */
    method GetPage(ptr: nat) returns (node: Node)
      requires ptr in pages && (ptr in live || ptr in pinned)
      ensures node == pages[ptr]
    {
      node := pages[ptr];
    }

    /** Any free page number may come out. The node must fit a page. */
    method NewPage(node: Node) returns (ptr: nat)
      requires Valid() && NodeBytes(node.entries) <= PAGE_SIZE
      modifies `pages, `live
      ensures Valid()
      ensures NewPageStep(old(pages), old(live), pinned, node, ptr, pages, live)
    {
      FreshExists(live + pinned);
      ptr :| ptr != 0 && ptr !in live && ptr !in pinned;
      live := live + {ptr};
      pages := pages[ptr := node];
    }

    method DelPage(ptr: nat)
      requires Valid() && ptr in live
      modifies `live
      ensures Valid() && live == old(live) - {ptr}
    {
      live := live - {ptr};
    }
  }

  lemma {:induction false} FreshExists(s: set<nat>)
    ensures exists p: nat :: p != 0 && p !in s
  {
    var m := Bound(s);
    assert m + 1 != 0 && m + 1 !in s;
  }

  lemma {:induction false} Bound(s: set<nat>) returns (m: nat)
    ensures forall x :: x in s ==> x <= m
    decreases s
  {
    if s == {} {
      m := 0;
    } else {
      var x :| x in s;
      m := Bound(s - {x});
      if m < x { m := x; }
      assert forall y :: y in s ==> y == x || y in s - {x};
    }
  }
}
