/** A node as the sequence of its entries, and the operations that build nodes from nodes. */
module Nodes {
  import opened Bytes
  import opened NodeSize

  datatype Entry = Entry(ptr: nat, key: seq<byte>, val: seq<byte>)

  datatype Node = Node(leaf: bool, entries: seq<Entry>)

  function EntryBytes(e: Entry): nat {
    4 + |e.key| + |e.val|
  }

  function EntrySizes(es: seq<Entry>): seq<nat> {
    seq(|es|, i requires 0 <= i < |es| => EntryBytes(es[i]))
  }

  function EntryKeys(es: seq<Entry>): seq<seq<byte>> {
    seq(|es|, i requires 0 <= i < |es| => es[i].key)
  }

  /** Bytes that a node of these entries occupies. */
  function NodeBytes(es: seq<Entry>): nat {
    Total(EntrySizes(es))
  }

  function SliceOf(n: Node, lo: nat, hi: nat): Node
    requires lo <= hi <= |n.entries|
  {
    Node(n.leaf, n.entries[lo..hi])
  }

  /** nodeSplit2. */
  function NodeHalves(n: Node): (Node, Node)
    requires n.entries != []
  {
    SplitPoint(EntrySizes(n.entries));
    var i := SplitIdx(EntrySizes(n.entries));
    (SliceOf(n, 0, i), SliceOf(n, i, |n.entries|))
  }

  function NodeSplitLeft(left: Node, right: Node): (r: seq<Node>)
    ensures 2 <= |r| <= 3
  {
    if NodeBytes(left.entries) <= PAGE_SIZE || left.entries == [] then [left, right]
    else [NodeHalves(left).0, NodeHalves(left).1, right]
  }

  /** nodeSplit3. */
  function NodeSplit3(n: Node): (r: seq<Node>)
    ensures 1 <= |r| <= 3
  {
    if NodeBytes(n.entries) <= PAGE_SIZE || n.entries == [] then [n]
    else NodeSplitLeft(NodeHalves(n).0, NodeHalves(n).1)
  }

  /** leafInsert: a new entry before position `idx`. */
  function LeafInserted(es: seq<Entry>, idx: nat, key: seq<byte>, val: seq<byte>): seq<Entry>
    requires idx <= |es|
  {
    es[..idx] + [Entry(0, key, val)] + es[idx..]
  }

  /** leafUpdate: the entry at position `idx` is replaced. */
  function LeafUpdated(es: seq<Entry>, idx: nat, key: seq<byte>, val: seq<byte>): seq<Entry>
    requires idx < |es|
  {
    es[..idx] + [Entry(0, key, val)] + es[idx + 1..]
  }

  /** nodeReplaceKidN: the entry at `idx` gives way to those of the new children. */
  function KidsReplaced(es: seq<Entry>, idx: nat, kids: seq<Entry>): seq<Entry>
    requires idx < |es|
  {
    es[..idx] + kids + es[idx + 1..]
  }

  /** nodeReplace2Kid: two neighbouring entries give way to one. */
  function TwoKidsReplaced(es: seq<Entry>, idx: nat, kid: Entry): seq<Entry>
    requires idx + 1 < |es|
  {
    es[..idx] + [kid] + es[idx + 2..]
  }

  /** The deletion of one entry from a leaf. */
  function EntryRemoved(es: seq<Entry>, idx: nat): seq<Entry>
    requires idx < |es|
  {
    es[..idx] + es[idx + 1..]
  }
}
