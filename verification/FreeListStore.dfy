/**
 The page store that the tree is proved against, as the original has it: page numbers from the free
 list's allocator, and pages that are buffers of bytes.
 */
module FreeListStores {
  import opened NodeSize
  import opened Nodes
  import opened NodeLayout
  import opened PageStores
  import opened PageFiles
  import opened FreeLists

  class FreeListStore {
    const alloc: Allocator
    var file: PageFile

    ghost var pages: map<nat, Node>  // what the buffers hold

    ghost predicate Valid()
      reads this, alloc, alloc.free, file.Values
    {
      alloc.Valid() && Backs(file, pages, alloc.live)
    }

    constructor (end: nat)
      requires end > 0
      ensures Valid() && alloc.live == {} && fresh(alloc) && fresh(alloc.free)
    {
      alloc := new Allocator(end);
      file, pages := map[], map[];
    }

    /** The node is read from its bytes. */
    method GetPage(ptr: nat) returns (node: Node)
      requires Valid() && ptr in alloc.live
      ensures ptr in pages && node == pages[ptr]
    {
      node := ReadNode(file[ptr], pages[ptr]);
    }

    /** A step that the tree's page store allows, and one that touches no page of the list. */
    method NewPage(node: Node) returns (ptr: nat)
      requires Valid() && CanLayOut(node)
      modifies `file, `pages, alloc, alloc.free
      ensures Valid() && ptr !in alloc.free.chain
      ensures NewPageStep(old(pages), old(alloc.live), {}, node, ptr, pages, alloc.live)
    {
      ghost var live := alloc.live;
      ptr := alloc.NewPage();
      Place(ptr, node, live);
    }

    method Place(ptr: nat, node: Node, ghost live: set<nat>)
      requires Backs(file, pages, live) && ptr !in live && CanLayOut(node)
      modifies `file, `pages
      ensures Backs(file, pages, live + {ptr}) && pages == old(pages)[ptr := node]
    {
      var a := LayOut(node);
      file, pages := file[ptr := a], pages[ptr := node];
    }

    /** A freed page keeps its contents until it is handed out again. */
    method DelPage(ptr: nat)
      requires Valid() && ptr in alloc.live
      modifies alloc, alloc.free
      ensures Valid() && alloc.live == old(alloc.live) - {ptr}
    {
      alloc.DelPage(ptr);
    }
  }
}
