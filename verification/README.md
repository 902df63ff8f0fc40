# A Dafny model of svacara-db

svacara-db is a single-file database: a copy-on-write B+tree over numbered pages, an order-preserving
key encoding, a page allocator, a two-phase commit to disk, a transaction manager, a SQL front end and
a small wire protocol. This project models the algorithms at its core and proves what they keep over
whole runs. Nothing in it is executed; `dafny verify dfyconfig.toml` checks the whole project.

## What is modelled, from the bottom up

**Nodes and trees.** `NodeBytes.dfy` (module `NodeLayout`) is the byte layout of a node with its
16-bit positions: the accessors, the append functions and the builders work in place on byte arrays
and are proved to lay out exactly a given list of entries. `Nodes.dfy` has the same builders on lists
of entries. `Trees.dfy`, `TreeInsert.dfy`, `TreeDelete.dfy` and `TreeGet.dfy` describe the tree
operations as functions on tree values and prove that they act like insertion, deletion and lookup in
a sorted list, and keep the invariant `Good`: sorted keys, all leaves at one depth, no empty node,
every node within a page. `PageStore.dfy`, `PagedTrees.dfy`, `BTrees.dfy` and `BTree.dfy` are the
operations as the original runs them, on a store of pages from which the allocator may hand out any
number that is neither live nor pinned. They are proved against the tree functions, with exact
accounting of pages. `TreeRuns.dfy` lifts this to every run of operations. A node that does not fit
the buffer the original gives it is an explicit failure; `TreeSizes.dfy` gives a size discipline under
which it never happens, and `SplitLimits.dfy`, `InsertLimits.dfy` and `DeleteLimits.dfy` say exactly when
it does, from the lengths of keys and values that are there before the operation. `PageFiles.dfy` goes down to bytes
again: the pages of a tree are laid out in buffers, and a lookup that sees only the buffers answers from
the tree's contents. `Basics.dfy` holds what several modules share.

**Iterator.** `IterFrames.dfy` and `Iterator.dfy` model `SeekLE` and `Next`. `Next` appends to its
stack where it should overwrite. The consequence is stated exactly: a scan is right if and only if, in
every node two levels above the leaves, every child it goes on to has a single leaf. Trees of one or
two levels always qualify.

**Overflow chains.** `Overflow.dfy`: long values in linked pages, written, read and freed.

**Keys.** `Encoding.dfy` and `Decoding.dfy` prove that encoded keys sort like (prefix, tuple), that
the 0xff fence lies where a range scan needs it, and that decoding inverts encoding. Floats are
binary64 bit patterns (section 3.4 of IEEE 754-2019); `Floats.dfy` relates the patterns to the numbers
they stand for, as exact reals scaled by a power of two. Minus zero and NaNs are the exceptions: exactly
when the encoded order is the numeric order, when two floats share an encoding, and when a float comes
back. The order laws hold for all values: a NaN counts as the pattern whose place it takes.
Exclusive-or and complement are written as arithmetic.

**Disk.** `Disks.dfy` is a disk with an adversary: for each page it tracks every content that a crash
could leave, writes may tear, and a failed sync settles nothing. `CommitProtocol.dfy` is
`updateOrRevert` on that disk, `MetaPages.dfy` the bytes of the meta page for an arbitrary checksum
function, `FreeLists.dfy` the free list and its allocator, and `PageManager.dfy` the page manager with its
memory map, staged and appended pages. `FreeListStore.dfy` shows that this allocator, over pages of bytes, is
one of the page stores that the tree is proved against. `PageReuse.dfy` puts the free list over the page
manager, as the closures of `kv.go` do, and both before the disk.

**Transactions.** `Conflicts.dfy` and `Transactions.dfy`: begin, read, write, commit, abort, conflict
detection and history trimming as a state machine with a store that may fail.

**SQL expressions.** `SqlGrammar.dfy` is the expression grammar as functions, `SqlParser.dfy` the
cursor-moving parser that is proved to compute them, and `SqlPrint.dfy` and `SqlRoundTrip.dfy` a
printer with the parentheses that precedence needs, and words in any mix of small and capital letters,
and the proof that parsing its output gives the expression back. `SqlTables.dfy` does the same for `CREATE TABLE` with its nested list loops.

**Wire format.** `ResultFrames.dfy`: what the server writes for a result set and what the client's
loop reads, and exactly when the two agree.

## Where the original does not keep a promise

- Splitting (`internal/btree/insert.go:32-39`) weighs only packed entries against half of all bytes, so tiny or
  large entries can leave a piece that is too big: `SplitLimits.TinyEntriesOverflow`, `SplitLimits.LargeEntriesOverflow`.
  Exactly when it works: `SplitLimits.PiecesFitIff` for a node, `SplitLimits.EqualEntriesIff` for entries of one size,
  `InsertLimits.InsertFitsIff` for an insertion.
- Deleting the first key of a child can put a longer separator into the parent, whether the child is merged or not:
  `DeleteLimits.UnmergedChildOverflows`, `DeleteLimits.MergedChildOverflows`. Exactly when a deletion fits:
  `DeleteLimits.DeleteFitsIff`; only a longer next key makes it fail: `DeleteLimits.OnlyLongerKeysOverflow`.
- `Next` (`internal/btree/iterator.go:72`): `IterFrames.ScanFails` is a tree whose scan goes wrong, and
  `IterFrames.FullScanIff` and `IterFrames.ScanIff` say when a scan is right.
- A recovery write that fails returns without a rollback (`internal/kvstore/kv.go:139-148`), and the next attempt can
  make a root durable whose page was never written: `CommitProtocol.LossAfterFailedRecovery`. It is safe if and only
  if no page of that tree is still staged: `CommitProtocol.RecoveryIsSafeIff`, `CommitProtocol.RecoveryIsAlwaysSafeIff`.
- The page manager's `Read` does not see pages that are still to be appended (`internal/storage/page.go:43-57`):
  `PageManagers.PageMgr.ReadIff`, `PageManagers.PageMgr.ReadSeesIff`. The first page that is ever freed makes the free
  list append a page and write to it at once, so in a file that ends with its last page the first free faults:
  `PageReuse.FirstFreeFaults`. And a page that is both appended and overwritten loses what was written to it:
  `PageManagers.PageMgr.FlushPages`.
- The free list never consults `maxSeq`, so a page freed by the running operation can come back at once, and does if
  and only if the head has caught up with the tail: `FreeLists.Allocator.ReuseAtOnce`. With a list page that is
  flushed, writing the page loses the tree on disk: `PageReuse.OverwriteFreed`, `PageReuse.ReuseLosesTheTree`. The crash
  guarantee therefore has the disjointness of updated pages and the old tree (`CommitProtocol.Staged`) as a premise,
  which `Disks.WriteSafeIff` shows to be necessary.
- With SyncOff the new meta page may reach the disk before the pages it names: `CommitProtocol.LossWithoutSync`.
  Publishing it is safe if and only if no page of the new tree was staged: `CommitProtocol.UnsyncedIsSafeIff`.
- A rollback (`internal/kvstore/kv.go:198-202`) does not take back the free list. The meta page that is written next names
  the old tree with the free list of the undone operation: `CommitProtocol.KV.UpdateOrRevert`,
  `CommitProtocol.KV.Recover`. What the list then says is not what the page manager holds: `PageReuse.UndoneFree`.
- Of the 511 numbers in a list page only the first 64 are ever handed out (`internal/btree/freelist.go:48`). A head that
  passes them before the page is full leaves the list for good, and from then on the file grows with every page:
  `FreeLists.FreeList.PopHead`, `FreeLists.Allocator.NewPage`.
- The 0xff fence (`internal/kvstore/encoding.go:16-31`) is appended for CmpGE and for -3, which is no comparison, and
  not for CmpGT and CmpLE, so the key for CmpGE lies behind the equal keys: `Encoding.FenceSkipsEqual`.
- Commits are recorded under the version at which they began (`internal/transaction/tx.go:110-113`):
  `Conflicts.EarlierWriterIsMissed`, `Conflicts.ReportedIff`.
- Minus zero and sign-less NaNs do not come back from the encoding: `Decoding.RoundTripIff`, `Decoding.MinusZeroIsLost`.
  Minus zero sorts before all numbers, and a NaN can share the encoding of a number:
  `Encoding.FloatOrderIff`, `Encoding.FloatCollisionIff`.
- The executor's value comparison disagrees with the key order on booleans and floats: `Encoding.ValCompareAgrees`,
  `Encoding.ValCompareFails`.
- A name that begins with a digit or with "not" does not parse as a name: `SqlRoundTrip.NameComesBackIff`,
  `SqlRoundTrip.NamesDoNotComeBack`.
- The comparison "==" (`internal/sql/parser.go:402`) is never reached, and leaves its second sign in the input:
  `SqlRoundTrip.TwoCharacters`.
- A column whose name begins with "primarykey", or is "primary" before a word that begins with "key", is taken for a
  key clause: `SqlTables.TakenForKeyIff`, `SqlTables.ColumnsTakenForKeys`.
- A result with too many columns, too long cells or too long a payload does not arrive: `ResultFrames.FrameIff`,
  `ResultFrames.FramesLost`.

## Model

| member | source | states |
|---|---|---|
| `Bytes.Compare` | internal/btree/node.go:128-148 | the loop decides the lexicographic byte order: negative, zero or positive exactly when less, equal or greater |
| `Bytes.LessTotal` | internal/btree/node.go:128-148 | exactly one of less, equal, greater holds for any two keys |
| `Bytes.LessTrans` | internal/btree/node.go:128-148 | the key order is transitive |
| `NodeLayout.NoWrap` | internal/btree/node.go:48-79 | within 8192 bytes no 16-bit position wraps |
| `NodeLayout.HeaderRead` | internal/btree/node.go:35-46 | type and key count read back as written |
| `NodeLayout.PositionRead` | internal/btree/node.go:58-75 | offsets and positions of every entry laid out so far are the prefix sums of the entry sizes |
| `NodeLayout.EntryRead` | internal/btree/node.go:48-92 | pointer, key and value of every entry read back as laid out |
| `NodeLayout.NBytesRead` | internal/btree/node.go:77-79 | the size of a complete node is 4 + 10n plus the packed entries |
| `NodeLayout.NodeFormat` | internal/btree/node.go:35-102 | byte by byte: type and count in two bytes each, the pointers from byte 4 on in eight bytes each, the ends of the entries in two bytes each, and the entries with the lengths of key and value in two bytes each; numbers with the lowest byte first |
| `PageFiles.PageFormat` | internal/btree/node.go:10-46 | a page's bytes are its node in this format, with type 2 for a leaf and 1 for an inner node |
| `NodeLayout.AppendExtends` | internal/btree/node.go:94-102 | writing one more entry keeps all earlier entries readable and adds exactly the new one |
| `NodeLayout.SetHeader` | internal/btree/node.go:43-46 | a fresh header makes an empty node of n announced entries |
| `NodeLayout.AppendKV` | internal/btree/node.go:94-102 | in place: the buffer that held a list of entries now holds the list with one more |
| `NodeLayout.AppendRange` | internal/btree/node.go:104-108 | a stretch of another node's entries is appended unchanged and in order |
| `NodeLayout.Lookup` | internal/btree/node.go:110-126 | the binary search returns the last position whose key is at most the target, or 0 |
| `Trees.LookupLE` | internal/btree/node.go:110-126 | everything right of the position is greater than the target; a position above 0 holds a key at most the target |
| `NodeLayout.LeafInsert` | internal/btree/insert.go:3-8 | in place: the new leaf holds the old entries with the new one at the index |
| `NodeLayout.LeafUpdate` | internal/btree/insert.go:10-15 | in place: the new leaf holds the old entries with the one at the index replaced |
| `NodeLayout.ReplaceKidN` | internal/btree/insert.go:17-25 | in place: the new parent holds the children's entries instead of the one at the index |
| `NodeLayout.FindSplit` | internal/btree/insert.go:27-44 | the accumulating loop finds the split index that the entry sizes determine |
| `NodeLayout.Split2` | internal/btree/insert.go:27-44 | the two buffers hold the entries before and from the split index |
| `NodeLayout.Merge` | internal/btree/delete.go:24-28 | in place: the merged node holds left's entries and then right's |
| `NodeLayout.Replace2Kid` | internal/btree/delete.go:30-35 | in place: the new parent holds one entry instead of two neighbours |
| `NodeLayout.LeafDelete` | internal/btree/delete.go:37-80 | in place: the new leaf holds all entries but one |
| `NodeSize.SplitPoint` | internal/btree/insert.go:27-44 | the split is after the longest non-empty prefix whose packed entries take at most half of all bytes |
| `NodeSize.RightHalfEmptyIff` | internal/btree/insert.go:27-44 | the right half is empty exactly when no prefix exceeds half, that is, when overhead dominates |
| `TreeInsert.Split3Flat` | internal/btree/insert.go:46-60 | the pieces of a split hold together exactly the node's bindings in order |
| `TreeInsert.Split3Full` | internal/btree/insert.go:27-60 | pieces that all fit are all non-empty |
| `TreeInsert.OverheadNeverFits` | internal/btree/insert.go:27-60 | a node whose right half would be empty is never split to size |
| `TreeInsert.InsertNodeFlat` | internal/btree/insert.go:62-85 | insertion into a subtree is insertion into its sorted list of bindings |
| `TreeInsert.InsertCorrect` | internal/btree/insert.go:62-111 | inserting into a good tree binds the key and changes no other binding, and the tree is good again when its nodes fit |
| `TreeGet.GetCorrect` | internal/btree/insert.go:113-130 | the descent answers with the binding in the whole tree |
| `TreeDelete.EmptyChildMerges` | internal/btree/delete.go:3-22 | an emptied child stays unmerged exactly when it has no sibling, so clearing the parent drops nothing |
| `TreeDelete.MergeWhen` | internal/btree/delete.go:3-22 | a child of at most 1024 bytes joins its left neighbour if the two fit 4096 bytes, else its right one if those do |
| `TreeInsert.SplitWhen` | internal/btree/insert.go:46-60 | a node of at most 4096 bytes stays whole; a larger one is halved, and its left half again if that is still larger |
| `TreeDelete.DeleteNodeFlat` | internal/btree/delete.go:37-80 | deletion reports a miss exactly when the key is unbound, and otherwise removes exactly that binding |
| `TreeDelete.DeleteNodeFull` | internal/btree/delete.go:37-80 | deletion leaves no empty node below the one it rebuilt |
| `TreeDelete.DeleteNodeFit` | internal/btree/delete.go:37-80 | when the rebuilt parents fit, so does every node |
| `TreeDelete.DeleteCorrect` | internal/btree/delete.go:37-98 | on a good tree: the answer says whether the key was bound, exactly its binding goes, a miss changes nothing, the rest is good or gone |
| `TreeSizes.WorkableSizes` | internal/btree/insert.go:27-60 | one key length of at least 9 with entries up to 500 bytes, or at least 17 with up to 1362, meets the size discipline |
| `TreeSizes.SplitTwo` | internal/btree/insert.go:27-44 | under the discipline an oversized node splits into two non-empty halves within a page |
| `TreeSizes.SplitSized` | internal/btree/insert.go:46-60 | never a third piece, and two exactly when the node is oversized |
| `TreeSizes.InsertSized` | internal/btree/insert.go:62-111 | under the discipline every page of an insertion fits |
| `TreeSizes.DeleteSized` | internal/btree/delete.go:37-80 | a deletion keeps the discipline |
| `TreeSizes.DeleteSizedFits` | internal/btree/delete.go:37-80 | under the discipline every page of a deletion fits |
| `SplitLimits.PiecesFitIff` | internal/btree/insert.go:27-60 | an oversized node is split into pieces that fit if and only if some entry takes the packed bytes across half of the node, it and those after it fit a page, and those before it fit or can be cut once more into two that do |
| `SplitLimits.EqualEntriesIff` | internal/btree/insert.go:27-60 | entries of one size, one entry over a page: the split works if and only if each takes at least 11 packed bytes |
| `InsertLimits.DimsAfterAre` | internal/btree/insert.go:62-85 | the lengths of all keys and values of the rebuilt node are those computed from the node, the key and the value before the insertion |
| `InsertLimits.SeparatorsAre` | internal/btree/insert.go:17-60 | the separators of the pieces of a node are the first keys of the stretches that its entry sizes determine |
| `InsertLimits.InsertFitsIff` | internal/btree/insert.go:62-111 | an insertion fits if and only if, by the lengths there are before it, every rebuilt node on the descent fits two pages and can be cut, and the root above the pieces fits a page |
| `SplitLimits.TinyEntriesOverflow` | internal/btree/insert.go:27-60 | the 256th two-byte key overflows its page although the tree before it was good |
| `SplitLimits.LargeEntriesOverflow` | internal/btree/insert.go:27-60 | entries of 40, 2040 and 2040 bytes leave a right piece of 4104 bytes |
| `DeleteLimits.RebuiltParentBytes` | internal/btree/delete.go:37-80 | the size of the rebuilt parent in all three branches, from the separators before and the first key after |
| `DeleteLimits.DeleteFitsIff` | internal/btree/delete.go:37-80 | the deletion of a bound key fits if and only if at every node on the way down the parent fits with its new separator, computed before the deletion |
| `DeleteLimits.OnlyLongerKeysOverflow` | internal/btree/delete.go:37-80 | a deletion fits whenever the key after the deleted one is not longer |
| `DeleteLimits.UnmergedChildOverflows` | internal/btree/delete.go:37-80 | a good tree whose parent goes from 4075 to 5074 bytes, its child not merged |
| `DeleteLimits.MergedChildOverflows` | internal/btree/delete.go:37-80 | a good tree whose parent goes from 4090 to 5074 bytes, its child merged with the right sibling |
| `PageStores.PageStore.NewPage` | internal/btree/btree_test.go:17-46 | a new page gets a number that is neither live nor pinned, and no other page changes |
| `PagedTrees.StoredFrame` | internal/btree/insert.go:62-111 | a stored tree stays stored as long as its own pages do not change |
| `BTrees.AllocAll` | internal/btree/insert.go:17-25 | one page per piece, each holding its piece, the entries naming them by number and first key |
| `BTrees.ReplaceKids` | internal/btree/insert.go:17-25 | the parent around the new children, all stored, all accounted for |
| `BTrees.InsertInto` | internal/btree/insert.go:62-85 | the rebuilt node is the tree function's; live pages are exactly its children's and the caller's; pinned and outside pages untouched |
| `BTrees.SplitKid` | internal/btree/insert.go:76-85 | the rebuilt child is split and its pieces take its place, or a piece does not fit |
| `BTrees.DecideMerge` | internal/btree/delete.go:3-22 | which sibling to merge with, by the bytes of the stored nodes, as on tree values |
| `BTrees.MergeWithLeft` | internal/btree/delete.go:50-80 | the child and its left sibling become one stored child, and the live pages are again exactly those of the parent's children |
| `BTrees.MergeWithRight` | internal/btree/delete.go:50-80 | the child and its right sibling become one stored child, and the live pages are again exactly those of the parent's children |
| `BTrees.DeleteFrom` | internal/btree/delete.go:37-80 | the rebuilt node is the tree function's, with exact page accounting; a miss touches no page |
| `BPlusTree.BTree.Insert` | internal/btree/insert.go:87-111 | succeeds exactly when all built nodes fit; then the contents are the old map with the key bound, and live pages are exactly those of the tree |
| `BPlusTree.BTree.Delete` | internal/btree/delete.go:82-98 | reports whether the key was bound; the contents lose exactly that key; a miss changes neither pages nor tree; no page leaks or is freed twice |
| `BPlusTree.BTree.Get` | internal/btree/insert.go:113-130 | the binding of the key in the current contents |
| `BPlusTree.GetFrom` | internal/btree/insert.go:113-130 | the same from any stored root whose pages may still be read |
| `BPlusTree.InstallRoot` | internal/btree/insert.go:87-111 | the pieces of the root get pages, under a new root when there are several |
| `PageFiles.GetFromFile` | internal/btree/insert.go:113-130 | the same loop on the bytes of the pages alone: type, binary search, key, value and child pointer are all read from the buffers |
| `PageFiles.GetBytes` | internal/btree/insert.go:113-130 | any file that holds the live pages of a valid tree answers every lookup from the contents of the tree |
| `PageFiles.LayOut` | internal/btree/node.go:94-102 | every node that fits a page and has 64-bit page numbers is laid out in a page from which all entries read back |
| `PageFiles.Save` | internal/btree/insert.go:87-111 | every page of a valid tree can be laid out, and the file then holds the tree |
| `BPlusTree.ReplaceRoot` | internal/btree/delete.go:82-98 | the old root page goes, and an emptied tree has no root and no live page |
| `TreeRuns.Perform` | internal/btree/insert.go:87-130 | one operation answers and changes the contents like a plain map |
| `TreeRuns.Execute` | internal/btree/insert.go:62-130 | every run whose nodes fit answers like a plain map, ends in a valid tree, and keeps every pinned tree stored |
| `TreeRuns.ReadSnapshot` | internal/btree/insert.go:62-111 | after any later run an earlier root still answers from the contents of its own time |
| `TreeRuns.SizedRunFits` | internal/btree/delete.go:37-98 | under the size discipline every node of every run fits |
| `TreeRuns.ExecuteSized` | internal/btree/insert.go:87-130 | from the empty tree, under the discipline, every run answers like a plain map |
| `IterFrames.SeekRemaining` | internal/btree/iterator.go:9-25 | what is left after SeekLE starts at the greatest key that is at most the target, or at the first key |
| `IterFrames.StepRight` | internal/btree/iterator.go:47-81 | a step that does not put a leaf below the top of the stack shows the next entry and loses none |
| `IterFrames.StepWrong` | internal/btree/iterator.go:57-77 | a step that puts a leaf below the top shows the same entry again |
| `IterFrames.YieldsIff` | internal/btree/iterator.go:47-81 | repeated Next shows the remaining entries, each once and in order, and then becomes invalid, exactly for tidy stacks |
| `IterFrames.ScanIff` | internal/btree/iterator.go:9-81 | the same for every good tree and every start key |
| `IterFrames.FullScanIff` | internal/btree/iterator.go:9-81 | a full scan is right if and only if in every node two levels above the leaves all children but the first have one leaf |
| `IterFrames.ScanFails` | internal/btree/iterator.go:57-77 | a good tree of three leaves under two inner nodes whose full scan does not give its bindings |
| `IterFrames.ShallowSeekTidy` | internal/btree/iterator.go:9-25 | on at most two levels the stack is always tidy |
| `Iterators.ShallowScanWorks` | internal/btree/iterator.go:9-81 | on at most two levels every scan from every key is right |
| `Iterators.SeekLE` | internal/btree/iterator.go:9-25 | the stack of stored nodes is the path to the greatest key at most the target |
| `Iterators.BIter.IsValid` | internal/btree/iterator.go:27-33 | valid exactly while an entry is shown |
| `Iterators.BIter.Entry` | internal/btree/iterator.go:35-45 | key and value of the entry shown |
| `Iterators.BIter.Next` | internal/btree/iterator.go:47-81 | the two stacks change exactly as the step on frames says, at every height; it fails exactly where a leaf's entry would be followed as a child |
| `Iterators.Scan` | internal/btree/iterator.go:9-81 | a scan that works collects the entries from the key found on, in order and each once |
| `Overflow.AllocOverflow` | internal/btree/overflow.go:7-40 | new pages only, as many as there are chunks, linked in order; no earlier page changes |
| `Overflow.PageFormat` | internal/btree/overflow.go:7-40 | byte by byte: 0xBEEF, the length, the next page and the chunk, of 4084 bytes in every page but the last |
| `Overflow.ReadOverflow` | internal/btree/overflow.go:42-54 | reading a chain gives back the data it was written from |
| `Overflow.FreeOverflow` | internal/btree/overflow.go:56-63 | exactly the pages of the chain are freed |
| `Overflow.OverflowSize` | internal/btree/overflow.go:65-78 | the loop computes the number of pages that the chain takes, the length divided by 4084 rounded up |
| `Encoding.StrOrder` | internal/kvstore/encoding.go:68-81 | escaped and terminated strings compare like the strings, whatever follows them |
| `Encoding.EscapedBytes` | internal/kvstore/encoding.go:68-81 | anywhere in a string, byte 0 becomes 1, 1 and byte 1 becomes 1, 2, and any other byte is itself |
| `Encoding.ValueBytes` | internal/kvstore/encoding.go:33-66 | byte by byte, over the whole range of each type: type byte 1 and the integer moved up by 2^63, 2 and the escaped string and a zero, 3 and a flag, 4 and the float's word complemented or with its top bit turned |
| `Encoding.KeyBytes` | internal/kvstore/encoding.go:9-14 | the prefix takes four bytes, the highest first, and appending values to a tuple appends their encodings to the key |
| `Encoding.FloatOrder` | internal/kvstore/encoding.go:33-66 | encoded floats, NaNs included, compare like the patterns they stand for: numbers in order with minus zero first, and NaNs with a sign next |
| `Encoding.FloatOrderIff` | internal/kvstore/encoding.go:33-66 | for any two patterns, encoded order is the order of the numbers if and only if: for numbers, neither is minus zero, both are, or the comparison is with a positive number on the right or a non-negative one on the left; with a NaN, what the first stands for is not less |
| `Encoding.NumberOrder` | internal/kvstore/encoding.go:33-66 | for patterns whose exponent field is below 2047 or whose fraction is zero, whatever follows: encoded order is numeric order, but for minus zero before what is not positive and after what is negative |
| `Encoding.FloatCollisionIff` | internal/kvstore/encoding.go:33-66 | two bit patterns, NaNs included, share an encoding if and only if they are equal or one is the NaN that complements the other's encoding |
| `Encoding.TupleOrder` | internal/kvstore/encoding.go:33-66 | encoded tuples compare like the tuples: integers before strings before booleans before floats, each type in its own order, each float by what it stands for |
| `Encoding.KeyOrder` | internal/kvstore/encoding.go:9-14 | encoded keys compare exactly like (prefix, tuple) in that order, for all values |
| `Encoding.KeyInjective` | internal/kvstore/encoding.go:9-14 | equal keys exactly for equal prefix and tuples that stand for the same values |
| `Encoding.KeyFence` | internal/kvstore/encoding.go:16-22 | the 0xff key lies above exactly the keys that come before or extend the given values, below all others, and equals none |
| `Encoding.PartialKeyBounds` | internal/kvstore/encoding.go:16-31 | below the start of a range scan lie exactly the smaller keys and, if the comparison is 1 or -3, those whose values extend the given ones |
| `Encoding.FenceSkipsEqual` | internal/kvstore/encoding.go:16-31 | for all values the key of exactly these values lies below the start if and only if the comparison is 1, which is CmpGE, or -3 |
| `Encoding.MinusZeroSortsFirst` | internal/kvstore/encoding.go:33-66 | minus zero sorts below every other number although it equals zero |
| `Encoding.ValCompareAgrees` | internal/sql/executor.go:220-233 | the value comparison agrees with the key order if and only if the values stand for the same, or are of different types, integers or strings |
| `Encoding.ValCompareResult` | internal/sql/executor.go:220-233 | values of different types compare in the key order of the types and by their distance; integers and strings by value; all booleans, and all floats, are alike |
| `Encoding.ValCompareFails` | internal/sql/executor.go:220-233 | it does not on false and true, nor on two different floats |
| `Floats.NaNIff` | internal/kvstore/encoding.go:33-66 | a pattern is a NaN exactly if its eleven exponent bits are ones and its fraction is not zero |
| `Floats.MagnitudeIs` | internal/kvstore/encoding.go:33-66 | below the first doubling a magnitude is its bit pattern, and the next exponent doubles it |
| `Floats.MagnitudeMono` | internal/kvstore/encoding.go:33-66 | a larger bit pattern is a larger magnitude |
| `Floats.ScaledOrder` | internal/kvstore/encoding.go:33-66 | numbers compare by sign and bit pattern |
| `Decoding.EscapeBytes` | internal/kvstore/encoding.go:68-81 | the loop computes the escaping that the order proof is about |
| `Decoding.UnescapeBytes` | internal/kvstore/encoding.go:83-102 | the loop computes the unescaping that inverts it |
| `Decoding.UnescapeEscape` | internal/kvstore/encoding.go:68-102 | unescaping inverts escaping, and escaped strings hold no zero byte |
| `Decoding.EncodeValues` | internal/kvstore/encoding.go:33-66 | the loop appends the encoding of the whole tuple |
| `Decoding.EncodeKey` | internal/kvstore/encoding.go:9-14 | the key of the order embedding is appended to what is there |
| `Decoding.DecodeValues` | internal/kvstore/encoding.go:104-142 | the loop appends the decoded values, or panics exactly where a value is cut short |
| `Decoding.DecodeBytes` | internal/kvstore/encoding.go:104-142 | on any bytes: a panic exactly for a type byte other than 1 to 4, a word or flag cut short, or a string without a zero; otherwise the integer, string, flag (any byte but 0 is true) or float that the bytes hold, and what follows |
| `Decoding.DecodeEncode` | internal/kvstore/encoding.go:33-142 | decoding an encoded tuple gives the tuple with each float in its canonical form |
| `Decoding.RoundTripIff` | internal/kvstore/encoding.go:33-142 | the tuple comes back if and only if it has no minus zero and no sign-less NaN |
| `Decoding.MinusZeroIsLost` | internal/kvstore/encoding.go:54-58 | minus zero comes back as a NaN |
| `Disks.WriteKeepsSettled` | internal/storage/page.go:102-150 | a write, successful or not, leaves every tree certain that it does not touch |
| `Disks.WriteSafeIff` | internal/storage/page.go:102-150 | a write is safe for the tree that the disk names if and only if it touches none of its pages |
| `Disks.SyncKeepsSettled` | internal/kvstore/kv.go:138-188 | a sync, successful or not, leaves every tree certain that is certain in the cache and on disk |
| `CommitProtocol.OtherWrite` | internal/storage/page.go:102-150 | writing pages of no safe tree keeps every crash on a safe tree |
| `CommitProtocol.FlushSettles` | internal/storage/page.go:102-150 | once all staged pages are written and synced, the new tree is safe beside the old one |
| `CommitProtocol.MetaSettles` | internal/kvstore/kv.go:165-185 | a written and synced meta page is the only one a crash can find |
| `CommitProtocol.AmongIsRecoverable` | internal/storage/recovery.go:26-31 | a disk whose possible meta pages name safe trees is recoverable at every crash |
| `CommitProtocol.KV.FlushPages` | internal/storage/page.go:102-150 | during and after any prefix of the writes the old tree stays recoverable; on success all staged pages are in the cache |
| `CommitProtocol.KV.Recover` | internal/kvstore/kv.go:139-148 | during the repair a crash finds what it could find before or the current tree; when it succeeds, the only meta page left has the root and size of the current tree and the free list of the operation that is under way |
| `CommitProtocol.KV.FlushAndSync` | internal/kvstore/kv.go:150-163 | the first phase keeps the old tree recoverable throughout and makes the new one safe on success |
| `CommitProtocol.KV.PublishMeta` | internal/kvstore/kv.go:165-187 | during the second phase a crash finds the old or the new tree; after it the only meta page left has root, size and free list of the new one |
| `CommitProtocol.KV.UpdateOrRevert` | internal/kvstore/kv.go:138-188 | at every moment a crash finds a refused meta page or one that names the old or the new tree, with the free list that goes with it and all pages intact (during a repair also what it could find before, and the old tree with the new free list); the update is committed exactly when no call failed, and then the only meta page left is that of the new tree and its free list; a revert takes back root and size and not the free list |
| `CommitProtocol.KV.TwoPhases` | internal/kvstore/kv.go:150-187 | from a repaired state: a crash finds the old or the new tree throughout, each failure leads to the state its error path leaves, and on success the only meta page left is that of the new tree and its free list |
| `CommitProtocol.RecoveryIsSafeIff` | internal/kvstore/kv.go:139-148 | from the state that a failed repair leaves, the next repair makes a safe root durable if and only if no page of the tree it names is staged, neither an overwritten nor an appended one |
| `CommitProtocol.RecoveryIsAlwaysSafeIff` | internal/kvstore/kv.go:139-148 | the same over all disks that hold the old tree, with no assumption on what the staged pages hold |
| `CommitProtocol.KV.RecoverAgain` | internal/kvstore/kv.go:139-148 | the repair of the update after a failed repair, whatever that update has staged itself: if it succeeds, its root is safe if and only if no page of it was staged when the first repair failed, and the meta page has the free list in memory |
| `CommitProtocol.UnsyncedIsSafeIff` | internal/kvstore/kv.go:150-187 | without syncing, publishing the new meta page is safe if and only if no page of the new tree was staged |
| `CommitProtocol.LossWithoutSync` | internal/kvstore/kv.go:150-187 | a page written and not synced, and a meta page that names it: a crash may find neither tree |
| `CommitProtocol.KV.Apply` | internal/kvstore/kv.go:109-114 | one operation, which may read the whole tree and its free list, with its commit: committed exactly when no call failed, with exactly the new meta page; otherwise the tree is the old one (with the new free list) or the new one, again ready for the next operation unless the repair failed; every crash meanwhile finds a whole tree |
| `CommitProtocol.KV.Run` | internal/kvstore/kv.go:109-188 | over any run of updates, with failures and repairs anywhere up to the first failed repair: a crash finds a refused meta page or a tree that its operation made from an earlier one, whole; without faults every operation is committed in order, and every tree is found with its own free list |
| `CommitProtocol.LossAfterFailedRecovery` | internal/kvstore/kv.go:139-148 | a failed repair and a successful retry make a root durable that was staged in a reused page and never written |
| `MetaPages.WriteMetaFull` | internal/storage/recovery.go:15-18 | in place, on any page and for any checksum function: the meta reads back whole |
| `MetaPages.ReadWritten` | internal/storage/page.go:185-206 | all six fields read back as written |
| `MetaPages.MetaFormat` | internal/storage/page.go:174-206 | byte by byte: a page is accepted if and only if its last four bytes are the checksum of bytes 4 to 4092 and it starts with the signature, and then its six fields are the words from byte 16 on |
| `MetaPages.CoveredDecides` | internal/storage/recovery.go:11-31 | two accepted pages that agree outside the first four bytes are the same page |
| `FreeLists.FreeList.PopHead` | internal/btree/freelist.go:39-59 | each pushed number comes out at most once and in push order, across list pages; the head moves by one slot and leaves a list page after 64, to the next one or, if fewer than 511 numbers were pushed to the page, for good; only the first 64 numbers of a list page ever come out |
| `FreeLists.FreeList.PushTail` | internal/btree/freelist.go:61-80 | the number is recorded behind all others; a fresh list page is the tail after the first number and after every 511th; a list whose head has run off stays so |
| `FreeLists.FreeList.ListHolds` | internal/btree/freelist.go:5-80 | the numbers pushed are in the slots of linked list pages, 511 to a page, in the order of pushing, and none beyond the first 64 of a page has been handed out |
| `FreeLists.Allocator.NewPage` | internal/kvstore/kv.go:77-100 | never a page of the tree or of the list; the oldest free page the head has yet to pass, or else the file grows by one page, as it always does once the head has run off the list |
| `FreeLists.Allocator.DelPage` | internal/kvstore/kv.go:77-100 | the page leaves the tree and joins the free list once |
| `FreeLists.Allocator.ReuseAtOnce` | internal/btree/freelist.go:39-80 | over pages that are seen as written: a page freed now is the next one handed out if and only if the head has caught up with the tail and has not run off the list |
| `FreeListStores.FreeListStore.GetPage` | internal/kvstore/kv.go:87-89 | the node is read back from the bytes of its page |
| `FreeListStores.FreeListStore.NewPage` | internal/kvstore/kv.go:77-100 | the node is laid out in bytes under the allocator's number: a step that the tree's page store allows, and no page of the list is written |
| `FreeListStores.FreeListStore.DelPage` | internal/kvstore/kv.go:77-100 | exactly the page leaves the tree, as in the tree's page store |
| `PageManagers.PageMgr.Read` | internal/storage/page.go:43-57 | the loop over the mappings: the page to overwrite, else the page of the file, else a panic beyond the map or a fault beyond the file |
| `PageManagers.PageMgr.ReadIff` | internal/storage/page.go:43-57 | a page that was handed out is seen as staged if and only if it is overwritten or flushed, or the file happens to hold the same |
| `PageManagers.PageMgr.ReadSeesIff` | internal/storage/page.go:43-63 | in a file that ends with its last page, if and only if it is not one to append, and no other read gives a page |
| `PageManagers.PageMgr.Write` | internal/storage/page.go:65-73 | the copy that the caller gets is what a read gives, or there is none |
| `PageManagers.PageMgr.ExtendMMap` | internal/storage/page.go:79-100 | the doubling loop ends with all pages mapped: one more mapping, as long as all before it and at least 16384 pages, doubled as often as needed and not once more |
| `PageManagers.PageMgr.FlushPages` | internal/storage/page.go:102-150 | if no call fails, the file holds what was staged for every page if and only if no page to append was overwritten with something else |
| `PageReuse.DelPage` | internal/kvstore/kv.go:77-100 | freeing a page over the page manager: the list gets its tail page as written if and only if the manager sees it, and then both stay in step, and exactly the tail page is to be overwritten |
| `PageReuse.NewPage` | internal/kvstore/kv.go:77-100 | handing out a page over the page manager: it succeeds if and only if the head page is seen as written and the page of the list can be read, and then both stay in step, and exactly that page and a list page that the head leaves are to be overwritten |
| `PageReuse.UndoneFree` | internal/kvstore/kv.go:198-202 | a free that is rolled back: the page manager is as it was, but the list still counts the page as freed, in a slot that reads as zero; if the number filled its list page, the list's tail is now the number that the manager gives to the next page appended |
| `PageReuse.FirstFreeFaults` | internal/kvstore/kv.go:77-100 | in every file that ends with its last page and has no list page yet, the first free does not get its list page |
| `PageReuse.OverwriteFreed` | internal/kvstore/kv.go:77-100 | an operation frees a page of the tree on disk and writes the next page handed out: it sees its list page if and only if there was one (or an empty one behind the file's end), and then a crash still finds the tree if and only if the head had not caught up |
| `PageReuse.ReuseLosesTheTree` | internal/kvstore/kv.go:77-100 | a file with a tree of two pages and a flushed list page loses its tree in this way |
| `Conflicts.OverlapMeansShared` | internal/transaction/tx.go:198-206 | the range test on the ranges that reads and writes create means that the key was read; a write of the empty key meets every range |
| `Conflicts.OverlapIff` | internal/transaction/tx.go:198-206 | two ranges that do not end before they start meet if and only if some key is in both |
| `Conflicts.OverlapFrom` | internal/transaction/tx.go:187-206 | a range that is open at the end meets, beyond what was read before, exactly the writes that do not end before its key |
| `Conflicts.RangesOverlap` | internal/transaction/tx.go:187-196 | the loops find whether any read range meets any write range |
| `Conflicts.DetectConflicts` | internal/transaction/tx.go:171-181 | reports a conflict exactly when an overlapping commit and all after it began after the reader |
| `Conflicts.TrimInvisible` | internal/transaction/tx.go:218-227 | dropping old records from the front changes no answer, sorted or not |
| `Conflicts.EarlierWriterIsMissed` | internal/transaction/tx.go:171-181 | a writer that began before the reader is never reported to it |
| `Conflicts.ReportedIff` | internal/transaction/tx.go:171-181 | an overlap is reported if and only if it lies behind the last record not newer than the reader |
| `Transactions.Tx.Get` | internal/transaction/tx.go:146-156 | own writes over the current store, and the key is remembered as read |
| `Transactions.Tx.Seek` | internal/transaction/tx.go:166-169 | from now on the transaction conflicts with what it conflicted with before and with every write that does not end before the key |
| `Transactions.Tx.Set` | internal/transaction/tx.go:158-160 | the transaction's view changes at exactly this key, the store not at all |
| `Transactions.Tx.Del` | internal/transaction/tx.go:162-164 | the transaction no longer sees the key |
| `Transactions.WriteRanges` | internal/transaction/tx.go:82-132 | one point range per buffered key, in whatever order the map gives them |
| `Transactions.ApplyAll` | internal/transaction/tx.go:82-132 | if no store call fails, the store is overlaid with the buffered writes in any order |
| `Transactions.Manager.Begin` | internal/transaction/tx.go:61-80 | the next version, ongoing and with nothing read or written, and the manager's invariant |
| `Transactions.Manager.UpdateMinVer` | internal/transaction/tx.go:208-216 | the least ongoing version, or the newest version when none is lower |
| `Transactions.Manager.TrimHistory` | internal/transaction/tx.go:218-227 | exactly the records before the first new enough one are dropped, none of which an ongoing or later transaction can be told of |
| `Transactions.Manager.TrimmingIsInvisible` | internal/transaction/tx.go:171-227 | in every reachable state the trimmed history answers like all records ever made |
| `Transactions.Manager.Refused` | internal/transaction/tx.go:82-132 | refused exactly at isolation level 3 or above and in conflict with the untrimmed records |
| `Transactions.Manager.Commit` | internal/transaction/tx.go:82-132 | applied once on top of all earlier commits and recorded under its begin version with exactly its keys, or no trace; the store stays the replay of the log of commits |
| `Transactions.Manager.Abort` | internal/transaction/tx.go:134-144 | no trace in the store, the log or the records |
| `SqlParser.Parser.SkipComments` | internal/sql/parser.go:35-49 | blanks and comments are passed, and nothing else |
| `SqlParser.Parser.Accept` | internal/sql/parser.go:51-69 | the keyword in any case is passed, or the cursor is where it was |
| `SqlParser.Parser.Symbol` | internal/sql/parser.go:78-93 | the longest run of name characters, possibly empty |
| `SqlParser.Parser.Num` | internal/sql/parser.go:95-112 | the longest signed number, clamped to 64 bits, or nothing but blanks is passed |
| `SqlParser.Parser.QuotedString` | internal/sql/parser.go:114-133 | the quoted string with escapes undone; an unterminated one uses up the input |
| `SqlParser.Parser.TryOperator` | internal/sql/parser.go:392-452 | the first operator of the level in the order of the cases, or the cursor is where it was |
| `SqlParser.Parser.Expression` | internal/sql/parser.go:374-452 | ends on every input, never moves back or past the end, and computes the grammar's tree and rest |
| `SqlParser.Parser.Atom` | internal/sql/parser.go:454-491 | the same for negation, parentheses, literals, names and calls |
| `SqlParser.Parser.Arguments` | internal/sql/parser.go:454-491 | the argument loop ends and collects the grammar's list |
| `SqlGrammar.Parse` | internal/sql/parser.go:374-491 | never leaves more input than it was given, which is why the recursion ends |
| `SqlRoundTrip.SkipIs` | internal/sql/parser.go:35-49 | before a token blanks, tabs, line ends and comments up to the end of the line are passed, and nothing else |
| `SqlRoundTrip.KeywordIff` | internal/sql/parser.go:51-69 | a keyword is recognised in every spelling, each of its letters small or capital, and in no other |
| `SqlRoundTrip.OperatorHit` | internal/sql/parser.go:392-452 | every operator, in any spelling and with "<>" for "!=", is read as itself, although some are prefixes of others |
| `SqlRoundTrip.OperatorWords` | internal/sql/parser.go:374-452 | which word is which operator, and at which level |
| `SqlRoundTrip.TwoCharacters` | internal/sql/parser.go:392-419 | "<>" is read as unequal; "==" is read as "=" without a right operand, and its second sign stays in the input |
| `SqlRoundTrip.Precedence` | internal/sql/parser.go:374-452 | of two operators without parentheses the tighter one (products, sums, comparisons, and, or) goes first, of two alike the left one, and a second comparison is left in the input |
| `SqlRoundTrip.NumberBack` | internal/sql/parser.go:95-112 | every integer is read back from its decimal text or, beyond 64 bits, as the nearest 64-bit number |
| `SqlRoundTrip.QuotedBack` | internal/sql/parser.go:114-133 | every string reads back from its escaped text |
| `SqlRoundTrip.StringTokens` | internal/sql/parser.go:114-133 | a string stands between single or double quotes and may hold the other kind; one that does not end uses up the input and gives nothing |
| `SqlRoundTrip.ParsePrint` | internal/sql/parser.go:374-491 | printed at any level, with operators, "not" and function names in any mix of small and capital letters, and followed by anything that does not continue it, an expression is read as itself |
| `SqlRoundTrip.ParseOfPrint` | internal/sql/parser.go:374-491 | parsing the printed form of any printable expression, in any such spelling, gives that expression and uses up the input |
| `SqlRoundTrip.Reparse` | internal/sql/parser.go:374-491 | the same for the cursor-moving parser itself |
| `SqlRoundTrip.NameComesBackIff` | internal/sql/parser.go:454-491 | any text reads as a name, all of it, if and only if it consists of letters, digits, '_' and '@', and starts neither with a digit nor with "not" in any spelling |
| `SqlRoundTrip.NamesDoNotComeBack` | internal/sql/parser.go:454-491 | the names notes and 2nd do not read back |
| `SqlTables.Accept2` | internal/sql/parser.go:51-69 | two keywords with blanks between them are passed, or the cursor is where it was |
| `SqlTables.Type` | internal/sql/parser.go:217-231 | the first type name in the order of the tests, or the cursor is where it was |
| `SqlTables.NameList` | internal/sql/parser.go:193-198 | the inner loop ends and collects the grammar's names |
| `SqlTables.ItemList` | internal/sql/parser.go:190-212 | the outer loop ends and collects columns and keys in the grammar's order |
| `SqlTables.CreateTable` | internal/sql/parser.go:184-215 | ends on every input, never moves back or past the end, and computes the grammar's statement and rest |
| `SqlTables.EarlierType` | internal/sql/parser.go:217-231 | no type name in any spelling is taken for one that is tried before it |
| `SqlTables.TypeWords` | internal/sql/parser.go:217-231 | int64 and int are integers, bytes, text and string are text, bool is a boolean, float64 and float are floats, in any spelling and before anything that ends the word |
| `SqlTables.TakenForKeyIff` | internal/sql/parser.go:190-204 | an entry that begins with a name, whatever follows it, is taken for a key clause if and only if the name begins with "primarykey", or is "primary" and the word after the blanks begins with "key", in any spelling |
| `SqlTables.ColumnsTakenForKeys` | internal/sql/parser.go:190-204 | a column primarykeys, and a column primary before a word that begins with key, are taken for key clauses |
| `SqlTables.TableBack` | internal/sql/parser.go:184-231 | parsing the printed form of any table definition with usable names, with any of the names of its types and its words in any spelling, gives that definition and uses up the input |
| `SqlTables.Reread` | internal/sql/parser.go:184-231 | the same for the cursor-moving parser itself |
| `ResultFrames.MessageIff` | internal/protocol/protocol.go:18-36 | a message comes back if and only if its payload is at most 2^32 - 6 bytes |
| `ResultFrames.MessageBytes` | internal/protocol/protocol.go:18-24 | a message is its type, the length of its payload modulo 2^32 in four bytes, the highest first, and the payload |
| `ResultFrames.StringBytes` | internal/protocol/protocol.go:38-43 | a string is its length modulo 65536 in two bytes, the higher first, and its bytes |
| `ResultFrames.ReadBack` | internal/protocol/protocol.go:38-43 | strings below 65536 bytes are read back one after the other, with the rest left |
| `ResultFrames.ReadSound` | cmd/svacara-cli/main.go:100-109 | whatever the client reads as cells is the encoding of those cells |
| `ResultFrames.ShowBack` | cmd/svacara-cli/main.go:91-126 | a presentable table is shown whole |
| `ResultFrames.ShowSound` | cmd/svacara-cli/main.go:91-126 | a table shown to the end is the one that was encoded, and presentable |
| `ResultFrames.ShowCut` | cmd/svacara-cli/main.go:91-126 | a payload that ends inside a length is shown up to there, one that ends inside a name or cell is a panic, an empty one shows nothing, and without columns any further byte is an endless loop |
| `ResultFrames.AnswerIff` | cmd/svacara-cli/main.go:62-88 | a response reaches the client whole and leaves what follows it if and only if its payload is shorter than 2^32 bytes; type 0x11 is reported with its text, 0x20 is readiness, and any other type but 0x10 is unknown |
| `ResultFrames.FrameIff` | internal/protocol/protocol.go:56-68 | the client shows the columns and in row i under column j the row's cell of that column, or nothing if it has none, and leaves what follows the frame, if and only if there are at most 255 columns (rows only with columns), names and cells are below 65536 bytes, and the payload is below 2^32 |
| `ResultFrames.FramesLost` | internal/protocol/protocol.go:56-68 | a row without columns and a cell of 65536 bytes do not arrive |
| `ResultFrames.EncodeResult` | internal/protocol/protocol.go:56-68 | the nested loops build a frame of type 0x10 that arrives in this sense under exactly this condition, whatever follows it |
| `ResultFrames.PrintResult` | cmd/svacara-cli/main.go:91-126 | on every payload: the cursor loop recovers columns and rows, panics, or goes on for ever, exactly as the description says |

## Left out

- PageFiles: lookups are proved down to the bytes of the pages. Insert and Delete are proved on a page store whose contract FreeListStores meets with bytes; the two are joined by that contract.
- PageFiles.Save: requires page numbers below 2^64, and so does FreeListStores.FreeListStore.NewPage.
- PageReuse.OverwriteFreed: stops where the list page is not seen as written. The original faults if the file ends there; if the file still holds an older page there, it goes on with that, which is not followed.
- NodeLayout.LeafInsert: and the other builders take target buffers that are large enough; a buffer that is too small is the explicit failure of the tree layer.
- NodeLayout.Split2: the original gives the right half a 4096-byte and the left half an 8192-byte buffer; the model takes any buffers that hold them.
- PageStores.PageStore.NewPage: hands out any free number; the allocator's choice is one of them (FreeListStores), and it pins no page for readers of an earlier root.
- Iterators.BIter.Next: stops where it would follow a leaf's entry as a child; there the original reads page 0 as a node.
- Overflow.AllocOverflow: requires that fewer than 2^64 page numbers are in use.
- CommitProtocol.KV.UpdateOrRevert: requires at least one committed version, SyncNormal or SyncFull, and staged pages disjoint from the old tree; that the last two are needed is UnsyncedIsSafeIff and Disks.WriteSafeIff. A crash during the very first update of an empty file is not covered.
- CommitProtocol.KV.Run: ends at a failed recovery, since the next attempt is safe only under the condition of RecoveryIsSafeIff. That operations stage their pages as they should also after a rollback, with the free list that it leaves, is a premise (Staging).
- Transactions.Manager.Commit: after a store error the store is only known to be out of step with the log.
- Transactions.Manager.Begin: versions are unbounded and do not wrap at 64 bits.
- Torn meta pages are refused by assumption in Disks; MetaPages leaves the checksum function arbitrary, so it cannot show that CRC-32 detects them.
- FlushPages' slicing of 8192-byte temporary buffers into 4096-byte pages.
- Snapshot isolation and serializability, which the original does not provide.
- The SQL statements other than CREATE TABLE, the planner, the executor and the relational layer.
- The server, the connection pool, sharding, and the rest of the command-line client.
