/**
 What a crash can leave on disk. For each page the cache holds the contents that a successful
 sync would make durable, and `dur` all contents that a crash now could leave; a page that is
 being written may also be torn. A failed write or sync settles nothing: as with a real fsync,
 a later successful sync does not make up for a failed one.
 */
module Disks {
  import opened Bytes

  /** A meta page names a root and the number of flushed pages; `list` is the free-list state. */
  datatype Block = Meta(root: nat, flushed: nat, list: seq<nat>) | Data(bytes: seq<byte>) | Torn

  type Contents = map<nat, set<Block>>

  datatype DiskState = DiskState(cache: Contents, dur: Contents)

  function Possible(c: Contents, p: nat): set<Block> {
    if p in c then c[p] else {Torn}
  }

  /** A write of some pages in one call. */
  function AfterWrite(s: DiskState, w: map<nat, Block>, ok: bool): DiskState {
    DiskState(
      map p | p in s.cache.Keys + w.Keys ::
        if p !in w then s.cache[p] else if ok then {w[p]} else Possible(s.cache, p) + {w[p], Torn},
      map p | p in s.dur.Keys + w.Keys ::
        if p !in w then s.dur[p] else Possible(s.dur, p) + {w[p], Torn})
  }

  function AfterSync(s: DiskState, ok: bool): DiskState {
    if ok then DiskState(s.cache, s.cache) else DiskState(s.dur, s.dur)
  }

  /** A tree that a meta page may name: its root, the contents of its pages, and the free list that goes with it. */
  datatype Version = Version(root: nat, flushed: nat, pages: map<nat, Block>, list: seq<nat>)

  predicate Names(m: Block, v: Version) {
    m == Meta(v.root, v.flushed, v.list)
  }

  /** Every page of the tree is certain to have the right contents. */
  ghost predicate Settled(c: Contents, v: Version) {
    forall p :: p in v.pages ==> p in c && c[p] == {v.pages[p]}
  }

  /** After a crash the meta page is refused, or names one of the versions with all its pages intact. */
  ghost predicate Recoverable(dur: Contents, vs: set<Version>) {
    forall m :: m in Possible(dur, 0) ==> m == Torn || exists v :: v in vs && Names(m, v) && Settled(dur, v)
  }

  /** The contents a crash can leave never get fewer by a write. */
  lemma WriteKeepsSettled(s: DiskState, w: map<nat, Block>, ok: bool, v: Version)
    requires w.Keys !! v.pages.Keys
    ensures Settled(s.cache, v) ==> Settled(AfterWrite(s, w, ok).cache, v)
    ensures Settled(s.dur, v) ==> Settled(AfterWrite(s, w, ok).dur, v)
  {
  }

  lemma SyncKeepsSettled(s: DiskState, ok: bool, v: Version)
    requires Settled(s.cache, v) && Settled(s.dur, v)
    ensures Settled(AfterSync(s, ok).cache, v) && Settled(AfterSync(s, ok).dur, v)
  {
  }

  /**
   Writing is safe for the one tree that the disk names if and only if it touches none of its pages:
   a page that is being written may be torn, and the tree's pages must be certain.
   */
  lemma WriteSafeIff(s: DiskState, w: map<nat, Block>, ok: bool, v: Version)
    requires 0 !in w && Recoverable(s.dur, {v}) && exists m :: m in Possible(s.dur, 0) && m != Torn
    requires forall p :: p in v.pages ==> v.pages[p] != Torn
    ensures Recoverable(AfterWrite(s, w, ok).dur, {v}) <==> w.Keys !! v.pages.Keys
  {
    var d := AfterWrite(s, w, ok).dur;
    assert Possible(d, 0) == Possible(s.dur, 0);
    var m :| m in Possible(s.dur, 0) && m != Torn;
    if w.Keys !! v.pages.Keys {
      WriteKeepsSettled(s, w, ok, v);
    } else {
      var p :| p in w && p in v.pages;
      assert Torn in d[p];
      assert !Settled(d, v);
    }
  }

  function Fault(ok: bool): nat {
    if ok then 0 else 1
  }

  class Disk {
    ghost var state: DiskState
    ghost var trace: seq<Contents>
    ghost var faults: nat  // calls that failed

    constructor (ghost s: DiskState)
      ensures state == s && trace == [] && faults == 0
    {
      state, trace, faults := s, [], 0;
    }

    /** A call that touches no page but may fail, such as extending the mapping. */
    method Prepare() returns (ok: bool)
      modifies `faults
      ensures faults == old(faults) + Fault(ok)
    {
      ok := *;
      faults := faults + Fault(ok);
    }

    /** WriteAt; the contents possible after a crash during the call are among those after it. */
    method Write(w: map<nat, Block>) returns (ok: bool)
      modifies this
      ensures state == AfterWrite(old(state), w, ok)
      ensures trace == old(trace) + [state.dur] && faults == old(faults) + Fault(ok)
    {
      ok := *;
      faults := faults + Fault(ok);
      state := AfterWrite(state, w, ok);
      trace := trace + [state.dur];
    }

    method Fsync() returns (ok: bool)
      modifies this
      ensures state == AfterSync(old(state), ok)
      ensures trace == old(trace) + [state.dur] && faults == old(faults) + Fault(ok)
    {
      ok := *;
      faults := faults + Fault(ok);
      state := AfterSync(state, ok);
      trace := trace + [state.dur];
    }
  }
}
