/**
 updateOrRevert and FlushPages: the two-phase commit of kv.go over the page manager, with a
 write or sync that may fail at any step and a crash that may come between any two.
 */
module CommitProtocol {
  import opened Bytes
  import opened Disks

  const SYNC_NORMAL: nat := 1
  const SYNC_FULL: nat := 2

  datatype Outcome = Committed | Reverted | Unsynced | RecoveryFailed

  /** Consecutive pages from `start` on. */
  function PageRun(start: nat, blocks: seq<Block>): (r: map<nat, Block>)
    ensures forall p :: p in r <==> start <= p < start + |blocks|
    ensures forall p :: p in r ==> r[p] == blocks[p - start]
    decreases |blocks|
  {
    if blocks == [] then map[] else PageRun(start + 1, blocks[1..])[start := blocks[0]]
  }

  /** What a tree operation has staged: pages to append, pages to overwrite, and the new tree. */
  ghost predicate Staged(prior: Version, next: Version, temp: seq<Block>, updates: map<nat, Block>) {
    && next.flushed == prior.flushed + |temp|
    && (forall p :: p in next.pages ==> 0 < p < next.flushed)
    && (forall p :: p in updates ==> 0 < p < prior.flushed && p !in prior.pages)
    && (forall p :: p in next.pages ==>
          var b := next.pages[p];
          if p in updates then b == updates[p]
          else if p >= prior.flushed then b == temp[p - prior.flushed]
          else p in prior.pages && b == prior.pages[p])
  }

  /** The invariant between operations: the current tree is safe on disk. */
  ghost predicate SafeVersion(s: DiskState, v: Version) {
    && Settled(s.cache, v) && Settled(s.dur, v) && v.flushed > 0
    && forall p :: p in v.pages ==> 0 < p < v.flushed
  }

  /** Every meta page that a crash could leave is refused or names a safe version. */
  ghost predicate MetaAmong(s: DiskState, vs: set<Version>) {
    && (forall m :: m in Possible(s.cache, 0) ==> m in Possible(s.dur, 0))
    && (forall m :: m in Possible(s.dur, 0) ==> m == Torn || exists v :: v in vs && Names(m, v))
    && (forall v :: v in vs ==> SafeVersion(s, v))
  }

  lemma AmongIsRecoverable(s: DiskState, vs: set<Version>)
    requires MetaAmong(s, vs)
    ensures Recoverable(s.dur, vs)
  {
    forall m | m in Possible(s.dur, 0) && m != Torn
      ensures exists v :: v in vs && Names(m, v) && Settled(s.dur, v)
    {
      var v :| v in vs && Names(m, v);
      assert SafeVersion(s, v);
    }
  }

  lemma AmongMore(s: DiskState, vs: set<Version>, v: Version)
    requires MetaAmong(s, vs) && SafeVersion(s, v)
    ensures MetaAmong(s, vs + {v})
  {
    forall m | m in Possible(s.dur, 0) && m != Torn ensures exists u :: u in vs + {v} && Names(m, u) {
      var u :| u in vs && Names(m, u);
      assert u in vs + {v};
    }
  }

  /** Writing pages that belong to no safe version changes nothing that matters. */
  lemma OtherWrite(s: DiskState, w: map<nat, Block>, ok: bool, vs: set<Version>)
    requires MetaAmong(s, vs) && 0 !in w && forall v :: v in vs ==> w.Keys !! v.pages.Keys
    ensures MetaAmong(AfterWrite(s, w, ok), vs)
  {
    forall v | v in vs ensures SafeVersion(AfterWrite(s, w, ok), v) {
      WriteKeepsSettled(s, w, ok, v);
    }
    var s' := AfterWrite(s, w, ok);
    assert Possible(s'.dur, 0) == Possible(s.dur, 0) && Possible(s'.cache, 0) == Possible(s.cache, 0);
  }

  lemma AnySync(s: DiskState, ok: bool, vs: set<Version>)
    requires MetaAmong(s, vs)
    ensures MetaAmong(AfterSync(s, ok), vs)
  {
    forall v | v in vs ensures SafeVersion(AfterSync(s, ok), v) {
      SyncKeepsSettled(s, ok, v);
    }
  }

  /** Writing the meta page of a safe version keeps every possible meta page good. */
  lemma MetaWrite(s: DiskState, m: Block, ok: bool, vs: set<Version>, v: Version)
    requires MetaAmong(s, vs) && v in vs && Names(m, v)
    ensures MetaAmong(AfterWrite(s, map[0 := m], ok), vs)
  {
    var w := map[0 := m];
    forall u | u in vs ensures SafeVersion(AfterWrite(s, w, ok), u) {
      assert 0 !in u.pages by { assert SafeVersion(s, u); }
      WriteKeepsSettled(s, w, ok, u);
    }
    var s' := AfterWrite(s, w, ok);
    assert Possible(s'.dur, 0) == Possible(s.dur, 0) + {m, Torn};
    assert Possible(s'.cache, 0) == if ok then {m} else Possible(s.cache, 0) + {m, Torn};
  }

  /** A written and synced meta page is the only one left. */
  lemma MetaSettles(s: DiskState, m: Block, v: Version, vs: set<Version>)
    requires MetaAmong(s, vs) && v in vs && Names(m, v)
    ensures var s' := AfterSync(AfterWrite(s, map[0 := m], true), true);
            MetaAmong(s', {v}) && Possible(s'.dur, 0) == {m}
  {
    MetaWrite(s, m, true, vs, v);
    AnySync(AfterWrite(s, map[0 := m], true), true, vs);
    assert Names(m, v);
  }

  lemma MetaRewritten(s: DiskState, m: Block, v: Version, vs: set<Version>, wrote: bool, ok: bool)
    requires MetaAmong(s, vs) && v in vs && Names(m, v)
    ensures var s' := AfterWrite(s, map[0 := m], wrote);
            && MetaAmong(s', vs) && Recoverable(s'.dur, vs)
            && MetaAmong(AfterSync(s', ok), vs) && Recoverable(AfterSync(s', ok).dur, vs)
            && (wrote && ok ==> MetaAmong(AfterSync(s', ok), {v}) && Possible(AfterSync(s', ok).dur, 0) == {m})
  {
    var s' := AfterWrite(s, map[0 := m], wrote);
    MetaWrite(s, m, wrote, vs, v);
    AmongIsRecoverable(s', vs);
    AnySync(s', ok, vs);
    AmongIsRecoverable(AfterSync(s', ok), vs);
    if wrote && ok {
      MetaSettles(s, m, v, vs);
    }
  }

  /** A write of the meta page and, if it succeeds, a sync. */
  ghost predicate Rewrites(s: DiskState, before: seq<Contents>, m: Block, wrote: bool, ok: bool, s': DiskState,
                           trace: seq<Contents>) {
    var w := AfterWrite(s, map[0 := m], wrote);
    if wrote then s' == AfterSync(w, ok) && trace == before + [w.dur] + [s'.dur]
    else !ok && s' == w && trace == before + [w.dur]
  }

  lemma RewriteSafe(s: DiskState, before: seq<Contents>, m: Block, v: Version, vs: set<Version>, wrote: bool, ok: bool,
                    s': DiskState, trace: seq<Contents>)
    requires Rewrites(s, before, m, wrote, ok, s', trace) && MetaAmong(s, vs) && v in vs && Names(m, v)
    ensures MetaAmong(s', vs) && before <= trace && Safe(trace, |before|, vs)
    ensures ok ==> MetaAmong(s', {v}) && Possible(s'.dur, 0) == {m}
  {
    MetaRewritten(s, m, v, vs, wrote, ok);
  }

  /** When all staged pages are written and synced, the new tree is safe too. */
  lemma FlushSettles(s: DiskState, prior: Version, next: Version, temp: seq<Block>, updates: map<nat, Block>)
    requires SafeVersion(s, prior) && Staged(prior, next, temp, updates)
    requires forall p :: p in updates ==> p in s.cache && s.cache[p] == {updates[p]}
    requires forall p :: prior.flushed <= p < next.flushed ==> p in s.cache && s.cache[p] == {temp[p - prior.flushed]}
    ensures SafeVersion(AfterSync(s, true), next)
  {
  }

  // ---------------------------------------------------------------------------------------
  // What goes wrong after a failed recovery, and without syncing.
  // ---------------------------------------------------------------------------------------

  /** After a crash the meta page is refused, or its root is that of `v` and all pages of `v` are intact. */
  ghost predicate RootSafe(dur: Contents, v: Version) {
    forall m :: m in Possible(dur, 0) ==> m == Torn || (m.Meta? && m.root == v.root && Settled(dur, v))
  }

  /** The new tree uses no page that is staged, neither an overwritten nor an appended one. */
  ghost predicate NoneStaged(prior: Version, next: Version, updates: map<nat, Block>) {
    forall p :: p in next.pages ==> p !in updates && p < prior.flushed
  }

  /** No staged page of the new tree happens to be on disk already. */
  ghost predicate Unwritten(s: DiskState, prior: Version, next: Version, updates: map<nat, Block>) {
    forall p :: p in next.pages && (p in updates || p >= prior.flushed) ==> Possible(s.cache, p) != {next.pages[p]}
  }

  function Rewritten(s: DiskState, m: Block): DiskState {
    AfterSync(AfterWrite(s, map[0 := m], true), true)
  }

  /**
   A recovery that fails returns without undoing the update, so the next one passes the new root with
   the old page count. Its write is safe if and only if no page of the new tree is staged.
   */
  lemma RecoveryIsSafeIff(s: DiskState, m: Block, prior: Version, next: Version, temp: seq<Block>,
                          updates: map<nat, Block>)
    requires SafeVersion(s, prior) && Staged(prior, next, temp, updates) && Unwritten(s, prior, next, updates)
    requires m.Meta? && m.root == next.root
    ensures RootSafe(Rewritten(s, m).dur, next) <==> NoneStaged(prior, next, updates)
  {
    var d := Rewritten(s, m).dur;
    assert Possible(d, 0) == {m};
    assert forall p :: p in next.pages ==> Possible(d, p) == Possible(s.cache, p);
    if !NoneStaged(prior, next, updates) {
      var p :| p in next.pages && (p in updates || p >= prior.flushed);
      assert Possible(d, p) != {next.pages[p]};
    }
  }

  /** On all disks that hold the old tree: the write is always safe if and only if no page is staged. */
  lemma RecoveryIsAlwaysSafeIff(m: Block, prior: Version, next: Version, temp: seq<Block>, updates: map<nat, Block>)
    requires Staged(prior, next, temp, updates) && m.Meta? && m.root == next.root
    requires prior.flushed > 0 && forall p :: p in prior.pages ==> 0 < p < prior.flushed
    requires forall p :: p in next.pages ==> next.pages[p] != Torn
    ensures (forall s :: SafeVersion(s, prior) ==> RootSafe(Rewritten(s, m).dur, next))
       <==> NoneStaged(prior, next, updates)
  {
    if NoneStaged(prior, next, updates) {
      forall s | SafeVersion(s, prior) ensures RootSafe(Rewritten(s, m).dur, next) {
        assert Unwritten(s, prior, next, updates);
        RecoveryIsSafeIff(s, m, prior, next, temp, updates);
      }
    } else {
      var c := map p | p in prior.pages :: {prior.pages[p]};
      var s := DiskState(c, c);
      assert SafeVersion(s, prior) && Unwritten(s, prior, next, updates);
      RecoveryIsSafeIff(s, m, prior, next, temp, updates);
    }
  }

  /** A tree of one page, and what replaces it: the root goes to a reused page, and none is appended. */
  const OLD_TREE := Version(1, 3, map[1 := Data([1])], [])
  const NEW_TREE := Version(2, 3, map[2 := Data([2])], [])
  const NEW_PAGES := map[2 := Data([2])]

  /** The old tree on disk, with other contents in the page that is reused. */
  function OldDisk(): DiskState {
    var c := map[0 := {Meta(1, 3, [])}, 1 := {Data([1])}, 2 := {Data([9])}];
    DiskState(c, c)
  }

  /** A repair failed, and the next one publishes a root whose page was never written. */
  lemma LossAfterFailedRecovery()
    ensures MetaAmong(OldDisk(), {OLD_TREE}) && Staged(OLD_TREE, NEW_TREE, [], NEW_PAGES)
    ensures var s := AfterWrite(OldDisk(), map[0 := Meta(1, 3, [])], false);
            !RootSafe(Rewritten(s, Meta(2, 3, [])).dur, NEW_TREE)
  {
    OldDiskSafe();
    var s := AfterWrite(OldDisk(), map[0 := Meta(1, 3, [])], false);
    MetaWrite(OldDisk(), Meta(1, 3, []), false, {OLD_TREE}, OLD_TREE);
    NotThere(s, OLD_TREE, NEW_TREE, 2, NEW_PAGES);
    RecoveryIsSafeIff(s, Meta(2, 3, []), OLD_TREE, NEW_TREE, [], NEW_PAGES);
  }

  lemma OldDiskSafe()
    ensures MetaAmong(OldDisk(), {OLD_TREE})
  {
    assert Names(Meta(1, 3, []), OLD_TREE);
  }

  lemma NotThere(s: DiskState, prior: Version, next: Version, p: nat, updates: map<nat, Block>)
    requires next.pages.Keys == {p} && p in updates && Possible(s.cache, p) != {next.pages[p]}
    ensures Unwritten(s, prior, next, updates) && !NoneStaged(prior, next, updates)
  {
    assert p in next.pages;
  }

  /** Every staged page of the new tree has been written but not synced. */
  ghost predicate OnlyWritten(s: DiskState, prior: Version, next: Version, updates: map<nat, Block>) {
    forall p :: p in next.pages && (p in updates || p >= prior.flushed) ==> p in s.dur && Torn in s.dur[p]
  }

  /** Without syncing, publishing the new meta page is safe if and only if no page of the new tree was staged. */
  lemma UnsyncedIsSafeIff(s: DiskState, m: Block, ok: bool, prior: Version, next: Version, temp: seq<Block>,
                          updates: map<nat, Block>)
    requires MetaAmong(s, {prior}) && Staged(prior, next, temp, updates) && OnlyWritten(s, prior, next, updates)
    requires Names(m, next) && !Names(m, prior) && forall p :: p in next.pages ==> next.pages[p] != Torn
    ensures Recoverable(AfterWrite(s, map[0 := m], ok).dur, {prior, next}) <==> NoneStaged(prior, next, updates)
  {
    var d := AfterWrite(s, map[0 := m], ok).dur;
    if NoneStaged(prior, next, updates) {
      PublishedSafely(s, m, ok, prior, next, temp, updates);
    } else {
      var p :| p in next.pages && (p in updates || p >= prior.flushed);
      assert d[p] == s.dur[p] && Torn in d[p];
      assert m in Possible(d, 0) && !Settled(d, next);
    }
  }

  /** The page is written and not synced when the meta page is published: a crash may leave only the latter. */
  lemma LossWithoutSync()
    ensures MetaAmong(OldDisk(), {OLD_TREE}) && Staged(OLD_TREE, NEW_TREE, [], NEW_PAGES)
    ensures var s := AfterWrite(OldDisk(), NEW_PAGES, true);
            !Recoverable(AfterWrite(s, map[0 := Meta(2, 3, [])], true).dur, {OLD_TREE, NEW_TREE})
  {
    OldDiskSafe();
    var s := AfterWrite(OldDisk(), NEW_PAGES, true);
    OtherWrite(OldDisk(), NEW_PAGES, true, {OLD_TREE});
    NotThere(OldDisk(), OLD_TREE, NEW_TREE, 2, NEW_PAGES);
    assert Torn in s.dur[2];
    UnsyncedIsSafeIff(s, Meta(2, 3, []), true, OLD_TREE, NEW_TREE, [], NEW_PAGES);
  }

  lemma PublishedSafely(s: DiskState, m: Block, ok: bool, prior: Version, next: Version, temp: seq<Block>,
                        updates: map<nat, Block>)
    requires MetaAmong(s, {prior}) && Staged(prior, next, temp, updates) && NoneStaged(prior, next, updates)
    requires Names(m, next)
    ensures Recoverable(AfterWrite(s, map[0 := m], ok).dur, {prior, next})
  {
    var d := AfterWrite(s, map[0 := m], ok).dur;
    assert SafeVersion(s, prior);
    assert Settled(s.dur, next);
    WriteKeepsSettled(s, map[0 := m], ok, prior);
    WriteKeepsSettled(s, map[0 := m], ok, next);
    forall b | b in Possible(d, 0) && b != Torn ensures exists v :: v in {prior, next} && Names(b, v) && Settled(d, v) {
      if b == m {
        assert next in {prior, next};
      } else {
        assert b in Possible(s.dur, 0) && prior in {prior, next};
      }
    }
  }

  // ---------------------------------------------------------------------------------------
  // Runs of updates.
  // ---------------------------------------------------------------------------------------

  /** What an operation stages, and the tree that it makes of it. */
  datatype Change = Change(next: Version, temp: seq<Block>, updates: map<nat, Block>)

  /** A tree operation: it reads the pages of the tree that it starts from. */
  type Operation = Version -> Change

  ghost predicate Makes(op: Operation, prior: Version, next: Version) {
    var c := op(prior);
    next == c.next && Staged(prior, next, c.temp, c.updates)
  }

  /**
   From everything that satisfies the invariant of the tree layer the operation makes another such tree; and the
   invariant survives a rollback, which leaves the free list of the operation that it undoes.
   */
  ghost predicate Staging(op: Operation, inv: Version -> bool) {
    forall v :: inv(v) ==> inv(op(v).next) && inv(Relisted(v, op(v).next)) && Makes(op, v, op(v).next)
  }

  /** A tree with the free-list state of another, which a rollback does not take back. */
  function Relisted(v: Version, next: Version): Version {
    v.(list := next.list)
  }

  /** One of the trees, with the free-list state of any of them. */
  ghost predicate Mixes(trees: seq<Version>, c: Version) {
    exists v, w :: v in trees && w in trees && c == Relisted(v, w)
  }

  /**
   Every tree after the first was made by its operation from an earlier one, which may have the free list
   that an undone operation left in memory.
   */
  ghost predicate Made(ops: seq<Operation>, trees: seq<Version>, first: Version) {
    && 0 < |trees| <= |ops| + 1 && trees[0] == first
    && forall i :: 0 < i < |trees| ==> MadeAt(ops, trees, i)
  }

  ghost predicate MadeAt(ops: seq<Operation>, trees: seq<Version>, i: nat)
    requires 0 < i < |trees| <= |ops| + 1
  {
    MadeEarlier(ops[i - 1], trees[..i], trees[i])
  }

  ghost predicate MadeEarlier(op: Operation, trees: seq<Version>, next: Version) {
    exists v :: Mixes(trees, v) && Makes(op, v, next)
  }

  /** The trees of the run in which every operation is committed. */
  ghost predicate InOrder(ops: seq<Operation>, trees: seq<Version>, first: Version) {
    && 0 < |trees| <= |ops| + 1 && trees[0] == first
    && forall i :: 0 < i < |trees| ==> Makes(ops[i - 1], trees[i - 1], trees[i])
  }

  /** Every disk that a crash could have left since `from` is recoverable. */
  ghost predicate Safe(trace: seq<Contents>, from: nat, vs: set<Version>) {
    from <= |trace| && forall i :: from <= i < |trace| ==> Recoverable(trace[i], vs)
  }

  lemma SafeJoin(before: seq<Contents>, trace: seq<Contents>, from: nat, vs: set<Version>)
    requires before <= trace && Safe(before, from, vs) && Safe(trace, |before|, vs)
    ensures Safe(trace, from, vs)
  {
  }

  lemma StagedRelisted(prior: Version, next: Version, temp: seq<Block>, updates: map<nat, Block>)
    requires Staged(prior, next, temp, updates)
    ensures Staged(Relisted(prior, next), next, temp, updates)
  {
  }

  lemma InOrderMore(ops: seq<Operation>, trees: seq<Version>, first: Version, next: Version)
    requires InOrder(ops, trees, first) && |trees| <= |ops| && Makes(ops[|trees| - 1], trees[|trees| - 1], next)
    ensures InOrder(ops, trees + [next], first)
  {
  }

  lemma MadeMore(ops: seq<Operation>, trees: seq<Version>, first: Version, next: Version)
    requires Made(ops, trees, first) && |trees| <= |ops| && MadeEarlier(ops[|trees| - 1], trees, next)
    ensures Made(ops, trees + [next], first)
  {
    var r := trees + [next];
    forall i | 0 < i < |r| ensures MadeAt(ops, r, i) {
      if i < |trees| {
        assert MadeAt(ops, trees, i);
        assert r[..i] == trees[..i] && r[i] == trees[i];
      } else {
        assert r[..i] == trees;
      }
    }
  }

  lemma MixesSelf(trees: seq<Version>, v: Version)
    requires v in trees
    ensures Mixes(trees, v)
  {
    assert v == Relisted(v, v);
  }

  lemma MixesMore(trees: seq<Version>, next: Version, c: Version)
    requires Mixes(trees, c)
    ensures Mixes(trees + [next], c) && Mixes(trees + [next], Relisted(c, next))
  {
    var v, w :| v in trees && w in trees && c == Relisted(v, w);
    var r := trees + [next];
    assert v in r && w in r && next in r;
    assert Relisted(c, next) == Relisted(v, next);
  }

  /** Among the trees of a run: those in `others`, and its own, each with its free list if it was `calm`. */
  ghost predicate Known(trees: seq<Version>, others: set<Version>, calm: bool, v: Version) {
    v in others || v in trees || (!calm && Mixes(trees, v))
  }

  lemma KnownMore(trees: seq<Version>, others: set<Version>, was: bool, next: Version, calm: bool, v: Version)
    requires Known(trees, others, was, v) && (calm ==> was)
    ensures Known(trees + [next], others, calm, v)
  {
    if !was && Mixes(trees, v) {
      MixesMore(trees, next, v);
    }
  }

  /** What a crash leaves is refused, or one of these trees with all its pages. */
  ghost predicate Holds(dur: Contents, trees: seq<Version>, others: set<Version>, calm: bool) {
    forall m :: m in Possible(dur, 0) ==>
      m == Torn || exists v :: Known(trees, others, calm, v) && Names(m, v) && Settled(dur, v)
  }

  ghost predicate AllHold(trace: seq<Contents>, from: nat, trees: seq<Version>, others: set<Version>, calm: bool) {
    from <= |trace| && forall i :: from <= i < |trace| ==> Holds(trace[i], trees, others, calm)
  }

  lemma HoldsMore(dur: Contents, trees: seq<Version>, others: set<Version>, was: bool, next: Version, calm: bool)
    requires Holds(dur, trees, others, was) && (calm ==> was)
    ensures Holds(dur, trees + [next], others, calm)
  {
    forall m | m in Possible(dur, 0) && m != Torn
      ensures exists v :: Known(trees + [next], others, calm, v) && Names(m, v) && Settled(dur, v)
    {
      var v :| Known(trees, others, was, v) && Names(m, v) && Settled(dur, v);
      KnownMore(trees, others, was, next, calm, v);
    }
  }

  lemma HoldsAround(dur: Contents, vs: set<Version>, trees: seq<Version>, others: set<Version>, calm: bool)
    requires Recoverable(dur, vs) && forall v :: v in vs ==> Known(trees, others, calm, v)
    ensures Holds(dur, trees, others, calm)
  {
    forall m | m in Possible(dur, 0) && m != Torn
      ensures exists v :: Known(trees, others, calm, v) && Names(m, v) && Settled(dur, v)
    {
      var v :| v in vs && Names(m, v) && Settled(dur, v);
    }
  }

  lemma HoldJoin(before: seq<Contents>, trace: seq<Contents>, from: nat, trees: seq<Version>, others: set<Version>,
                 was: bool, next: Version, calm: bool, vs: set<Version>)
    requires AllHold(before, from, trees, others, was) && before <= trace && (calm ==> was)
    requires Safe(trace, |before|, vs) && forall v :: v in vs ==> Known(trees + [next], others, calm, v)
    ensures AllHold(trace, from, trees + [next], others, calm)
  {
    forall i | from <= i < |trace| ensures Holds(trace[i], trees + [next], others, calm) {
      if i < |before| {
        assert trace[i] == before[i];
        HoldsMore(trace[i], trees, others, was, next, calm);
      } else {
        HoldsAround(trace[i], vs, trees + [next], others, calm);
      }
    }
  }

  /**
   A run so far: the trees made, all crashes safe for them (and for `others`, which the meta page may
   have named at the start), and without faults every operation committed in order.
   */
  ghost predicate RunSoFar(ops: seq<Operation>, done: nat, trees: seq<Version>, first: Version, others: set<Version>,
                           trace: seq<Contents>, from: nat, cur: Version, alts: set<Version>, clean: bool, calm: bool) {
    && done < |trees| && Made(ops, trees, first) && AllHold(trace, from, trees, others, calm)
    && Mixes(trees, cur) && (forall v :: v in alts ==> Known(trees, others, false, v))
    && (clean ==> |trees| == done + 1 && InOrder(ops, trees, first) && cur == trees[done])
  }

  /** What a crash may find during one more operation from `c`, while the meta page may name any of `a`. */
  ghost function Around(c: Version, a: set<Version>, next: Version, calm: bool): set<Version> {
    if calm then {c, next} else a + {Relisted(c, next), next}
  }

  lemma AroundKnown(trees: seq<Version>, others: set<Version>, c: Version, a: set<Version>, next: Version)
    requires Mixes(trees, c) && forall v :: v in a ==> Known(trees, others, false, v)
    ensures forall v :: v in a + {c, Relisted(c, next), next} ==> Known(trees + [next], others, false, v)
  {
    forall v | v in a ensures Known(trees + [next], others, false, v) {
      KnownMore(trees, others, false, next, false, v);
    }
    MixesMore(trees, next, c);
  }

  lemma RunStart(ops: seq<Operation>, cur: Version, alts: set<Version>, trace: seq<Contents>, calm: bool)
    ensures RunSoFar(ops, 0, [cur], cur, alts, trace, |trace|, cur, alts, true, calm)
  {
    MixesSelf([cur], cur);
  }

  lemma RunMore(ops: seq<Operation>, done: nat, trees: seq<Version>, first: Version, others: set<Version>,
                before: seq<Contents>, from: nat, c: Version, a: set<Version>, clean: bool, was: bool,
                next: Version, trace: seq<Contents>, stop: bool, committed: bool, cur: Version, alts: set<Version>,
                calm: bool)
    requires RunSoFar(ops, done, trees, first, others, before, from, c, a, clean, was) && |trees| == done + 1
    requires done < |ops| && Makes(ops[done], c, next) && before <= trace && (calm ==> was && clean)
    requires Safe(trace, |before|, Around(c, a, next, calm))
    requires cur in {c, next, Relisted(c, next)} && alts <= a + {c, next, Relisted(c, next)}
    requires committed ==> cur == next && !stop
    ensures RunSoFar(ops, if stop then done else done + 1, trees + [next], first, others, trace,
                     from, cur, alts, clean && committed, calm)
  {
    MadeMore(ops, trees, first, next);
    AroundKnown(trees, others, c, a, next);
    MixesMore(trees, next, c);
    MixesSelf(trees + [next], next);
    assert calm ==> c in trees + [next];
    HoldJoin(before, trace, from, trees, others, was, next, calm, Around(c, a, next, calm));
    if clean && committed {
      InOrderMore(ops, trees, first, next);
    }
  }

  class KV {
    const disk: Disk
    const syncMode: nat
    var root: nat
    var flushed: nat
    var temp: seq<Block>
    var updates: map<nat, Block>
    var list: seq<nat>
    var failed: bool

    var cur: Version              // what root, size and free list in memory denote, when nothing is staged
    ghost var alts: set<Version>  // what the meta page may name

    /** Open: the meta page that was read gives the root, the number of pages and the free list. */
    constructor (disk: Disk, syncMode: nat, meta: Block, v: Version)
      requires Names(meta, v) && MetaAmong(disk.state, {v})
      ensures Idle() && this.syncMode == syncMode && this.disk == disk && cur == v && !failed
    {
      this.disk, this.syncMode, root, flushed, list := disk, syncMode, meta.root, meta.flushed, meta.list;
      temp, updates, failed, cur, alts := [], map[], false, v, {v};
    }

    /** The tree with this root and size is safe on disk, and the meta page names it or, after a failure, others. */
    ghost predicate Current(oldRoot: nat, oldFlushed: nat)
      reads this, disk
    {
      && cur.root == oldRoot && cur.flushed == oldFlushed
      && SafeVersion(disk.state, cur) && MetaAmong(disk.state, alts)
      && (!failed ==> alts == {cur})
    }

    /** Between two operations. */
    ghost predicate Idle()
      reads this, disk
    {
      Current(root, flushed) && list == cur.list && temp == [] && updates == map[]
    }

    /** The pages written since `from` kept every version in `vs` recoverable. */
    ghost predicate SafeSince(from: nat, vs: set<Version>)
      reads this, disk
    {
      Safe(disk.trace, from, vs)
    }

    /** WriteMetaFull into a page of its own. */
    function BuildMeta(r: nat, f: nat): Block
      reads this
    {
      Meta(r, f, list)
    }

    method Rollback(r: nat, f: nat)
      modifies `root, `flushed, `temp, `updates
      ensures root == r && flushed == f && temp == [] && updates == map[]
    {
      root, flushed, temp, updates := r, f, [], map[];
    }

    method ClearUpdates()
      modifies `temp, `updates
      ensures temp == [] && updates == map[]
    {
      temp, updates := [], map[];
    }

    /** The pages of `w` are in the cache as written. */
    ghost predicate InCache(w: map<nat, Block>)
      reads disk
    {
      forall p :: p in w ==> p in disk.state.cache && disk.state.cache[p] == {w[p]}
    }

    /** The update loop of FlushPages, in whatever order the map yields the pages. */
    method WriteUpdates(ghost v: Version) returns (ok: bool)
      requires MetaAmong(disk.state, {v}) && forall p :: p in updates ==> p != 0 && p !in v.pages
      modifies disk
      ensures MetaAmong(disk.state, {v}) && SafeSince(|old(disk.trace)|, {v}) && old(disk.trace) <= disk.trace
      ensures ok ==> InCache(updates)
      ensures old(disk.faults) <= disk.faults && (ok <==> disk.faults == old(disk.faults))
    {
      var left := updates.Keys;
      while left != {}
        invariant left <= updates.Keys
        invariant MetaAmong(disk.state, {v}) && SafeSince(|old(disk.trace)|, {v}) && old(disk.trace) <= disk.trace
        invariant InCache(updates - left) && disk.faults == old(disk.faults)
        decreases left
      {
        var p :| p in left;
        left := left - {p};
        var w := map[p := updates[p]];
        ghost var s := disk.state;
        ok := disk.Write(w);
        OtherWrite(s, w, ok, {v});
        AmongIsRecoverable(disk.state, {v});
        if !ok {
          return;
        }
      }
      assert updates - left == updates;
      ok := true;
    }

    /** FlushPages: overwritten pages first, then the appended ones in one write. */
    method FlushPages(ghost v: Version, ghost next: Version) returns (ok: bool)
      requires flushed == v.flushed && Staged(v, next, temp, updates) && MetaAmong(disk.state, {v})
      modifies disk, `flushed, `temp
      ensures MetaAmong(disk.state, {v}) && SafeSince(|old(disk.trace)|, {v}) && old(disk.trace) <= disk.trace
      ensures ok ==> flushed == next.flushed && temp == []
      ensures ok ==> InCache(updates) && InCache(PageRun(v.flushed, old(temp)))
      ensures old(disk.faults) <= disk.faults && (ok <==> disk.faults == old(disk.faults))
    {
      if temp == [] && updates == map[] {
        return true;
      }
      var mapped := disk.Prepare();
      if !mapped {
        return false;
      }
      ok := WriteUpdates(v);
      if ok && temp != [] {
        var w := PageRun(flushed, temp);
        ghost var s := disk.state;
        ok := disk.Write(w);
        assert SafeVersion(s, v);
        OtherWrite(s, w, ok, {v});
        AmongIsRecoverable(disk.state, {v});
        if ok {
          flushed := flushed + |temp|;
          temp := [];
        }
      }
    }

    /** The recovery step at the start of an update that follows a failed one. */
    method RewriteMeta(r: nat, f: nat) returns (wrote: bool, ok: bool)
      modifies disk, `failed
      ensures Rewrites(old(disk.state), old(disk.trace), Meta(r, f, list), wrote, ok, disk.state, disk.trace)
      ensures failed == (old(failed) && !ok)
      ensures old(disk.faults) <= disk.faults && (ok <==> disk.faults == old(disk.faults))
    {
      var meta := BuildMeta(r, f);
      wrote := disk.Write(map[0 := meta]);
      ok := false;
      if wrote {
        ok := disk.Fsync();
        if ok {
          failed := false;
        }
      }
    }

    /** What the meta page may name, and the current tree with the free list as it is in memory now. */
    ghost function Repaired(): set<Version>
      reads this
    {
      alts + {cur.(list := list)}
    }

    /**
     The recovery step, called with the tree that is safe on disk. The page that it writes has the root and
     size of that tree, and the free list of the operation that is under way.
     */
    method Recover(oldRoot: nat, oldFlushed: nat) returns (ok: bool)
      requires Current(oldRoot, oldFlushed)
      modifies disk, `failed
      ensures MetaAmong(disk.state, Repaired()) && SafeSince(|old(disk.trace)|, Repaired())
      ensures old(disk.trace) <= disk.trace
      ensures ok ==> MetaAmong(disk.state, {cur.(list := list)}) && !failed
      ensures ok ==> Possible(disk.state.dur, 0) == {Meta(oldRoot, oldFlushed, list)}
      ensures !ok ==> failed == old(failed)
      ensures old(disk.faults) <= disk.faults && (ok <==> disk.faults == old(disk.faults))
    {
      ghost var s, meta, u, vs := disk.state, BuildMeta(oldRoot, oldFlushed), cur.(list := list), Repaired();
      AmongMore(s, alts, u);
      var wrote;
      wrote, ok := RewriteMeta(oldRoot, oldFlushed);
      RewriteSafe(s, old(disk.trace), meta, u, vs, wrote, ok, disk.state, disk.trace);
    }

    /**
     The recovery step of the update after a failed recovery. The root that it writes is that of the
     update `next` which was never undone, and by now its own operation has staged pages as well. If it
     succeeds, a crash finds that root with all its pages if and only if none of them was still staged
     when the earlier recovery failed.
     */
    method RecoverAgain(oldRoot: nat, oldFlushed: nat, ghost prior: Version, ghost next: Version,
                        ghost staged: seq<Block>, ghost changed: map<nat, Block>) returns (ok: bool)
      requires failed && oldRoot == next.root && oldFlushed == prior.flushed && SafeVersion(disk.state, prior)
      requires Staged(prior, next, staged, changed) && Unwritten(disk.state, prior, next, changed)
      modifies disk, `failed
      ensures ok ==> !failed && (RootSafe(disk.state.dur, next) <==> NoneStaged(prior, next, changed))
      ensures ok ==> Possible(disk.state.dur, 0) == {Meta(oldRoot, oldFlushed, list)}
    {
      RecoveryIsSafeIff(disk.state, BuildMeta(oldRoot, oldFlushed), prior, next, staged, changed);
      var _, done := RewriteMeta(oldRoot, oldFlushed);
      ok := done;
    }

    /** The second phase: the new meta page, when all pages of the new tree are durable. */
    method PublishMeta(ghost prior: Version, ghost next: Version) returns (wrote: bool, ok: bool)
      requires MetaAmong(disk.state, {prior, next}) && syncMode in {1, 2}
      requires root == next.root && flushed == next.flushed && list == next.list
      modifies disk
      ensures MetaAmong(disk.state, {prior, next}) && SafeSince(|old(disk.trace)|, {prior, next})
      ensures old(disk.trace) <= disk.trace
      ensures ok ==> wrote && MetaAmong(disk.state, {next})
      ensures ok ==> Possible(disk.state.dur, 0) == {Meta(next.root, next.flushed, next.list)}
      ensures old(disk.faults) <= disk.faults && (ok <==> disk.faults == old(disk.faults))
    {
      var meta := BuildMeta(root, flushed);
      ghost var s := disk.state;
      MetaSettles(s, meta, next, {prior, next});
      wrote := disk.Write(map[0 := meta]);
      MetaWrite(s, meta, wrote, {prior, next}, next);
      AmongIsRecoverable(disk.state, {prior, next});
      ok := false;
      if wrote {
        s := disk.state;
        if syncMode == SYNC_FULL {
          ok := disk.Fsync();
        } else if syncMode == SYNC_NORMAL {
          ok := disk.Fsync();
        }
        AnySync(s, ok, {prior, next});
        AmongIsRecoverable(disk.state, {prior, next});
      }
    }

    lemma SafeMore(from: nat, vs: set<Version>, ws: set<Version>)
      requires SafeSince(from, vs) && vs <= ws
      ensures SafeSince(from, ws)
    {
    }

    /** The first phase: all staged pages written and synced make the new tree safe beside the old one. */
    method FlushAndSync(ghost v: Version, ghost next: Version) returns (ok: bool)
      requires flushed == v.flushed && Staged(v, next, temp, updates) && MetaAmong(disk.state, {v})
      requires syncMode in {1, 2}
      modifies disk, `flushed, `temp
      ensures MetaAmong(disk.state, {v}) && SafeSince(|old(disk.trace)|, {v}) && old(disk.trace) <= disk.trace
      ensures ok ==> MetaAmong(disk.state, {v, next}) && flushed == next.flushed
      ensures old(disk.faults) <= disk.faults && (ok <==> disk.faults == old(disk.faults))
    {
      ghost var t := temp;
      ok := FlushPages(v, next);
      if ok {
        ghost var s := disk.state;
        if syncMode >= SYNC_NORMAL {
          ok := disk.Fsync();
        }
        AnySync(s, ok, {v});
        AmongIsRecoverable(disk.state, {v});
        if ok {
          assert SafeVersion(s, v);
          assert forall p :: v.flushed <= p < next.flushed ==> p in PageRun(v.flushed, t);
          FlushSettles(s, v, next, t, updates);
        }
      }
    }

    /**
     The update proper, when the meta page is known to name `v`, the current tree but for the free list. A
     rollback takes back the root and the size, and not the free list.
     */
    method TwoPhases(oldRoot: nat, oldFlushed: nat, next: Version, v: Version) returns (outcome: Outcome)
      requires v.root == oldRoot && v.flushed == oldFlushed && MetaAmong(disk.state, {v}) && !failed
      requires syncMode in {1, 2} && Staged(v, next, temp, updates)
      requires root == next.root && flushed == oldFlushed && list == next.list
      modifies disk, this
      ensures SafeSince(|old(disk.trace)|, {v, next}) && old(disk.trace) <= disk.trace
      ensures list == next.list && temp == [] && updates == map[]
      ensures Current(root, flushed) && alts <= {v, next}
      ensures match outcome
              case Committed =>
                && cur == next && !failed
                && Possible(disk.state.dur, 0) == {Meta(next.root, next.flushed, next.list)}
              case Reverted => cur == Relisted(v, next) && failed
              case Unsynced => cur == next && failed
              case RecoveryFailed => false
      ensures old(disk.faults) <= disk.faults && (outcome.Committed? <==> disk.faults == old(disk.faults))
    {
      ghost var mid := |disk.trace|;
      assert SafeVersion(disk.state, v);
      var ok := FlushAndSync(v, next);
      SafeMore(mid, {v}, {v, next});
      assert SafeVersion(disk.state, v);
      if !ok {
        Rollback(oldRoot, oldFlushed);
        failed, cur, alts := true, Relisted(v, next), {v};
        return Reverted;
      }
      ClearUpdates();
      var wrote;
      wrote, ok := PublishMeta(v, next);
      assert SafeVersion(disk.state, v) && SafeVersion(disk.state, next);
      if !wrote {
        Rollback(oldRoot, oldFlushed);
        failed, cur, alts := true, Relisted(v, next), {v, next};
        return Reverted;
      }
      cur := next;
      if !ok {
        failed, alts := true, {v, next};
        return Unsynced;
      }
      alts := {next};
      return Committed;
    }

    /**
     updateOrRevert. Wherever a crash comes, the meta page that is found is refused or names the
     tree before or after the update (or, while an earlier failure is being repaired, what it could
     name before), with all its pages intact. After a failure root and size are as before, and without
     one the update is committed: the meta page is that of the new tree and its free list.
     */
    method UpdateOrRevert(oldRoot: nat, oldFlushed: nat, next: Version) returns (outcome: Outcome)
      requires Current(oldRoot, oldFlushed) && syncMode in {1, 2} && Staged(cur, next, temp, updates)
      requires root == next.root && flushed == oldFlushed && list == next.list
      modifies disk, this
      ensures SafeSince(|old(disk.trace)|, Around(old(cur), old(alts), next, !old(failed)))
      ensures list == next.list && old(disk.trace) <= disk.trace
      ensures !outcome.RecoveryFailed? ==>
                && Current(root, flushed) && temp == [] && updates == map[]
                && alts <= {old(cur), Relisted(old(cur), next), next}
      ensures match outcome
              case Committed =>
                && cur == next && !failed
                && Possible(disk.state.dur, 0) == {Meta(next.root, next.flushed, next.list)}
              case Reverted =>
                && cur == Relisted(old(cur), next) && failed
                && root == oldRoot && flushed == oldFlushed
              case Unsynced => cur == next && failed
              case RecoveryFailed =>
                && old(failed) && failed && cur == old(cur)
                && alts == old(alts) + {Relisted(cur, next)} && MetaAmong(disk.state, alts)
                && root == next.root && flushed == oldFlushed && temp == old(temp) && updates == old(updates)
      ensures old(disk.faults) <= disk.faults && (outcome.Committed? <==> disk.faults == old(disk.faults))
    {
      ghost var c, a, from, first := cur, alts, |disk.trace|, !failed;
      var v := cur;
      if failed {
        var recovered := Recover(oldRoot, oldFlushed);
        v := Relisted(cur, next);
        SafeMore(from, a + {v}, Around(c, a, next, first));
        if !recovered {
          alts := a + {v};
          return RecoveryFailed;
        }
      }
      ghost var mid := disk.trace;
      StagedRelisted(c, next, temp, updates);
      outcome := TwoPhases(oldRoot, oldFlushed, next, v);
      SafeMore(|mid|, {v, next}, Around(c, a, next, first));
      SafeJoin(mid, disk.trace, from, Around(c, a, next, first));
    }

    /** One operation: done in memory, then committed or reverted. */
    method Apply(op: Operation) returns (outcome: Outcome)
      requires Idle() && Makes(op, cur, op(cur).next) && syncMode in {1, 2}
      modifies disk, this
      ensures var c, next := old(cur), op(old(cur)).next;
              && SafeSince(|old(disk.trace)|, Around(c, old(alts), next, !old(failed)))
              && cur in {c, next, Relisted(c, next)} && alts <= old(alts) + {c, next, Relisted(c, next)}
              && (outcome.Committed? ==>
                    && cur == next && !failed
                    && Possible(disk.state.dur, 0) == {Meta(next.root, next.flushed, next.list)})
              && (outcome.Reverted? ==> cur == Relisted(c, next))
              && (!outcome.RecoveryFailed? ==> Idle())
      ensures old(disk.faults) <= disk.faults && (outcome.Committed? <==> disk.faults == old(disk.faults))
      ensures old(disk.trace) <= disk.trace
    {
      var oldRoot, oldFlushed := root, flushed;
      var c := op(cur);
      root, temp, updates, list := c.next.root, c.temp, c.updates, c.next.list;
      outcome := UpdateOrRevert(oldRoot, oldFlushed, c.next);
    }

    /**
     A run of updates, up to the first failed recovery. Whenever the crash comes, the meta page is
     refused or names a tree that some operation of the run made from an earlier one, with all its
     pages; and a run without faults commits every operation in order. The free list that the page names is that
     of the same tree, unless there were faults.
     */
    method Run(ops: seq<Operation>, ghost inv: Version -> bool) returns (done: nat, ghost trees: seq<Version>)
      requires Idle() && syncMode in {1, 2}
      requires inv(cur) && forall i :: 0 <= i < |ops| ==> Staging(ops[i], inv)
      modifies disk, this
      ensures RunSoFar(ops, done, trees, old(cur), old(alts), disk.trace, |old(disk.trace)|, cur, alts,
                       disk.faults == old(disk.faults), disk.faults == old(disk.faults) && !old(failed))
      ensures disk.faults == old(disk.faults) ==> done == |ops|
      ensures done == |ops| ==> Idle()
    {
      ghost var first, others, from, faults, whole := cur, alts, |disk.trace|, disk.faults, !failed;
      done, trees := 0, [cur];
      RunStart(ops, cur, alts, disk.trace, whole);
      while done < |ops|
        invariant Idle() && inv(cur) && faults <= disk.faults && |trees| == done + 1 <= |ops| + 1
        invariant whole && disk.faults == faults ==> !failed
        invariant RunSoFar(ops, done, trees, first, others, disk.trace, from, cur, alts, disk.faults == faults,
                           whole && disk.faults == faults)
      {
        var stop;
        stop, trees := RunOne(ops, done, inv, trees, first, others, from, faults, whole);
        if stop {
          return;
        }
        done := done + 1;
      }
    }

    method RunOne(ops: seq<Operation>, done: nat, ghost inv: Version -> bool, ghost trees: seq<Version>,
                  ghost first: Version, ghost others: set<Version>, ghost from: nat, ghost faults: nat,
                  ghost whole: bool)
      returns (stop: bool, ghost trees': seq<Version>)
      requires done < |ops| && Staging(ops[done], inv) && syncMode in {1, 2} && |trees| == done + 1
      requires Idle() && inv(cur) && faults <= disk.faults && (whole && disk.faults == faults ==> !failed)
      requires RunSoFar(ops, done, trees, first, others, disk.trace, from, cur, alts, disk.faults == faults,
                        whole && disk.faults == faults)
      modifies disk, this
      ensures faults <= disk.faults && (stop ==> faults < disk.faults) && |trees'| == done + 2
      ensures !stop ==> Idle() && inv(cur) && (whole && disk.faults == faults ==> !failed)
      ensures RunSoFar(ops, if stop then done else done + 1, trees', first, others, disk.trace, from, cur, alts,
                       disk.faults == faults, whole && disk.faults == faults)
    {
      ghost var c, a, before, clean, was := cur, alts, disk.trace, disk.faults == faults, !failed;
      ghost var next := ops[done](cur).next;
      assert Makes(ops[done], cur, next);
      var outcome := Apply(ops[done]);
      stop, trees' := outcome == RecoveryFailed, trees + [next];
      ghost var calm := whole && disk.faults == faults;
      SafeMore(|before|, Around(c, a, next, was), Around(c, a, next, calm));
      RunMore(ops, done, trees, first, others, before, from, c, a, clean, whole && clean, next, disk.trace,
              stop, outcome.Committed?, cur, alts, calm);
    }
  }
}
