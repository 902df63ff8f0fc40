/** The transaction manager of tx.go: begin, commit, abort and the reads and writes in between. */
module Transactions {
  import opened Basics
  import opened Bytes
  import opened Conflicts

  type Store = map<seq<byte>, seq<byte>>

  /** Buffered writes; None is a deletion, as a nil value is in the original. */
  type Pending = map<seq<byte>, Option<seq<byte>>>

  /** The only isolation level that looks for conflicts; read committed is 1 and snapshot isolation 2. */
  const SERIALIZABLE: nat := 3

  /** The store as a transaction with these buffered writes sees it. */
  function Overlay(m: Store, p: Pending): Store {
    map k | k in m.Keys + p.Keys && (k in p ==> p[k].Some?) :: if k in p then p[k].value else m[k]
  }

  function Find(m: Store, k: seq<byte>): Option<seq<byte>> {
    if k in m then Some(m[k]) else None
  }

  /** The commits so far, applied in order. */
  function Replay(m: Store, log: seq<Pending>): Store {
    if log == [] then m else Overlay(Replay(m, log[..|log| - 1]), log[|log| - 1])
  }

  lemma ReplayAppend(m: Store, log: seq<Pending>, p: Pending)
    ensures Replay(m, log + [p]) == Overlay(Replay(m, log), p)
  {
    assert (log + [p])[..|log|] == log;
  }

  /** Applying one buffered write after another, in any order, is applying them all. */
  lemma OverlayOne(m: Store, p: Pending, k: seq<byte>)
    requires k in p
    ensures Overlay(m, p) == Overlay(Overlay(m, p - {k}), map[k := p[k]])
  {
  }

  lemma OverlayNext(m: Store, p: Pending, left: set<seq<byte>>, k: seq<byte>)
    requires k in left && k in p
    ensures Overlay(m, p - (left - {k})) == Overlay(Overlay(m, p - left), map[k := p[k]])
  {
    var q := p - (left - {k});
    assert q - {k} == p - left;
    OverlayOne(m, q, k);
  }

  class KVStore {
    var data: Store

    constructor (m: Store)
      ensures data == m
    {
      data := m;
    }

    method Get(key: seq<byte>) returns (r: Option<seq<byte>>)
      ensures r == Find(data, key)
    {
      r := if key in data then Some(data[key]) else None;
    }

    /** A write may fail, and a failed one may or may not have taken effect. */
    method Set(key: seq<byte>, val: seq<byte>) returns (ok: bool)
      modifies this
      ensures data == old(data)[key := val] || (!ok && data == old(data))
    {
      ok := *;
      var done: bool := *;
      if ok || done {
        data := data[key := val];
      }
    }

    method Del(key: seq<byte>) returns (ok: bool)
      modifies this
      ensures data == old(data) - {key} || (!ok && data == old(data))
    {
      ok := *;
      var done: bool := *;
      if ok || done {
        data := data - {key};
      }
    }
  }

  class Tx {
    const db: KVStore
    const version: nat
    const isolation: nat
    var pending: Pending
    var readSet: seq<KeyRange>
    var committed: bool
    var aborted: bool

    constructor (db: KVStore, version: nat, isolation: nat)
      ensures this.db == db && this.version == version && this.isolation == isolation
      ensures pending == map[] && readSet == [] && !committed && !aborted
    {
      this.db, this.version, this.isolation := db, version, isolation;
      pending, readSet, committed, aborted := map[], [], false, false;
    }

    /** Get: the transaction's own writes over the current store, and the read is remembered. */
    method Get(key: seq<byte>) returns (r: Option<seq<byte>>)
      modifies this`readSet
      ensures readSet == old(readSet) + [KeyRange(key, key)]
      ensures r == Find(Overlay(db.data, pending), key)
    {
      readSet := readSet + [KeyRange(key, key)];
      if key in pending {
        return pending[key];
      }
      r := db.Get(key);
    }

    /** Seek: from now on every write that does not end before the key is one that was read. */
    method Seek(key: seq<byte>)
      modifies this`readSet
      ensures readSet == old(readSet) + [KeyRange(key, [])]
      ensures forall writes :: AnyOverlap(readSet, writes) <==> AnyOverlap(old(readSet), writes) || Reaches(writes, key)
    {
      readSet := readSet + [KeyRange(key, [])];
      forall writes ensures AnyOverlap(readSet, writes) <==> AnyOverlap(old(readSet), writes) || Reaches(writes, key) {
        OverlapFrom(old(readSet), key, writes);
      }
    }

    /** Set; a nil value deletes. */
    method Set(key: seq<byte>, val: Option<seq<byte>>)
      modifies this`pending
      ensures Overlay(db.data, pending) == Overlay(Overlay(db.data, old(pending)), map[key := val])
      ensures pending == old(pending)[key := val]
    {
      pending := pending[key := val];
    }

    method Del(key: seq<byte>)
      modifies this`pending
      ensures Find(Overlay(db.data, pending), key) == None
      ensures pending == old(pending)[key := None]
    {
      pending := pending[key := None];
    }
  }

  /** The write loop of Commit: one range per buffered key, in whatever order the map yields them. */
  method WriteRanges(p: Pending) returns (writes: seq<KeyRange>)
    ensures IsRanges(writes, p)
  {
    writes := [];
    var left := p.Keys;
    while left != {}
      invariant left <= p.Keys && |writes| + |left| == |p|
      invariant forall r :: r in writes <==> r.start == r.stop && r.start in p.Keys - left
      decreases left
    {
      var k :| k in left;
      writes := writes + [KeyRange(k, k)];
      left := left - {k};
    }
  }

  /** One more record, under the version at which the transaction began, of exactly the keys it writes. */
  ghost predicate Recorded(before: seq<Committed>, after: seq<Committed>, version: nat, p: Pending) {
    && |after| == |before| + 1 && after[..|before|] == before
    && after[|before|].version == version && IsRanges(after[|before|].writes, p)
  }

  ghost predicate IsRanges(writes: seq<KeyRange>, p: Pending) {
    |writes| == |p| && forall r :: r in writes <==> r.start == r.stop && r.start in p
  }

  method ApplyOne(kv: KVStore, k: seq<byte>, o: Option<seq<byte>>) returns (ok: bool)
    modifies kv
    ensures ok ==> kv.data == Overlay(old(kv.data), map[k := o])
  {
    match o {
      case None => ok := kv.Del(k);
      case Some(v) => ok := kv.Set(k, v);
    }
  }

  /** The apply loop of Commit: it stops at the first store error. */
  method ApplyAll(kv: KVStore, p: Pending) returns (ok: bool)
    modifies kv
    ensures ok ==> kv.data == Overlay(old(kv.data), p)
  {
    var left := p.Keys;
    ghost var m := kv.data;
    assert p - left == map[];
    while left != {}
      invariant left <= p.Keys && kv.data == Overlay(m, p - left)
      decreases left
    {
      var k :| k in left;
      OverlayNext(m, p, left, k);
      left := left - {k};
      ok := ApplyOne(kv, k, p[k]);
      if !ok {
        return false;
      }
    }
    assert p - left == p;
    return true;
  }

  /** Where trimHistory cuts: before the first record that is new enough, and nowhere if there is none. */
  ghost predicate IsCut(history: seq<Committed>, minVer: nat, cut: nat) {
    && cut <= |history| && (forall j :: 0 <= j < cut ==> history[j].version < minVer)
    && if forall i :: 0 <= i < |history| ==> history[i].version < minVer then cut == 0
       else cut < |history| && history[cut].version >= minVer
  }

  class Manager {
    const kv: KVStore
    var version: nat
    var ongoing: set<nat>
    var history: seq<Committed>
    var minVer: nat

    ghost var initial: Store           // the store at the start
    ghost var txs: set<Tx>             // every transaction begun
    ghost var log: seq<Pending>        // what was committed, in commit order
    ghost var committers: seq<Tx>      // by whom
    ghost var dropped: seq<Committed>  // the records trimmed from the history
    ghost var faulted: bool            // a store error has happened

    ghost predicate Valid()
      reads this, kv, txs
    {
      Bookkeeping() && DroppedAreOld() && (!faulted ==> kv.data == Replay(initial, log))
    }

    /** Each transaction is ongoing, committed once, or aborted; no ongoing version is below minVer. */
    ghost predicate Bookkeeping()
      reads this`log, this`committers, this`txs, this`version, this`ongoing, this`minVer
      reads txs`committed, txs`aborted
    {
      && |log| == |committers|
      && (forall t :: t in txs ==> t.db == kv && t.version <= version)
      && (forall t, u :: t in txs && u in txs && t.version == u.version ==> t == u)
      && (forall t :: t in txs ==> (t.version in ongoing <==> !t.committed && !t.aborted))
      && (forall t :: t in txs ==> !(t.committed && t.aborted))
      && (forall t :: t in txs ==> (t.committed <==> t in committers))
      && (forall i, j :: 0 <= i < j < |committers| ==> committers[i] != committers[j])
      && (forall t :: t in committers ==> t in txs)
      && minVer <= version
      && (forall v :: v in ongoing ==> minVer <= v <= version)
    }

    /** A dropped record is older than every transaction that may still commit. */
    ghost predicate DroppedAreOld()
      reads this`dropped, this`ongoing, this`version
    {
      forall d, v :: 0 <= d < |dropped| && (v in ongoing || v > version) ==> dropped[d].version < v
    }

    /** All records ever made. */
    ghost function Records(): seq<Committed>
      reads this
    {
      dropped + history
    }

    /** For every transaction that may still commit, the trimmed history answers like all records. */
    lemma TrimmingIsInvisible(v: nat, readSet: seq<KeyRange>)
      requires Valid() && (v in ongoing || v > version)
      ensures Conflict(history, v, readSet) <==> Conflict(Records(), v, readSet)
    {
      forall d | 0 <= d < |dropped| ensures dropped[d].version < v {
        assert v in ongoing || v > version;
      }
      TrimInvisible(dropped, history, v, readSet);
    }

    constructor (store: KVStore)
      ensures Valid() && kv == store && initial == store.data && log == [] && txs == {} && !faulted
      ensures version == 0 && ongoing == {} && history == [] && minVer == 0
    {
      kv, version, ongoing, history, minVer := store, 0, {}, [], 0;
      initial, txs, log, committers, dropped, faulted := store.data, {}, [], [], [], false;
    }

    method Begin(isolation: nat) returns (tx: Tx)
      requires Valid()
      modifies this
      ensures Valid() && fresh(tx) && txs == old(txs) + {tx}
      ensures tx.version == version == old(version) + 1 && ongoing == old(ongoing) + {version}
      ensures tx.isolation == isolation && !tx.committed && !tx.aborted && tx.pending == map[] && tx.readSet == []
      ensures log == old(log) && Records() == old(Records()) && faulted == old(faulted) && initial == old(initial)
    {
      version := version + 1;
      ongoing := ongoing + {version};
      tx := new Tx(kv, version, isolation);
      txs := txs + {tx};
    }

    /** updateMinVer. */
    method UpdateMinVer()
      modifies this`minVer
      ensures minVer <= version && (minVer == version || minVer in ongoing)
      ensures forall v :: v in ongoing ==> minVer <= v
    {
      var min: nat := version;
      var left := ongoing;
      while left != {}
        invariant left <= ongoing && min <= version && (min == version || min in ongoing)
        invariant forall v :: v in ongoing && v !in left ==> min <= v
        decreases left
      {
        var v :| v in left;
        if v < min {
          min := v;
        }
        left := left - {v};
      }
      minVer := min;
    }

    /** trimHistory: the first record that is new enough becomes the first record. */
    method TrimHistory()
      requires DroppedAreOld() && minVer <= version && forall v :: v in ongoing ==> minVer <= v
      modifies this`history, this`dropped
      ensures Records() == old(Records()) && DroppedAreOld()
      ensures exists cut: nat :: IsCut(old(history), minVer, cut) && history == old(history)[cut..]
    {
      var cut := FirstNew();
      assert history == history[..cut] + history[cut..];
      dropped := dropped + history[..cut];
      history := history[cut..];
    }

    /** The loop of trimHistory: the first record that is new enough, or the first one if none is. */
    method FirstNew() returns (cut: nat)
      ensures IsCut(history, minVer, cut)
    {
      for i := 0 to |history|
        invariant forall j :: 0 <= j < i ==> history[j].version < minVer
      {
        if history[i].version >= minVer {
          return i;
        }
      }
      return 0;
    }

    method Abort(tx: Tx)
      requires Valid() && tx in txs
      modifies this, tx
      ensures Valid() && txs == old(txs)
      ensures !tx.committed ==> tx.aborted
      ensures kv.data == old(kv.data) && log == old(log) && Records() == old(Records())
      ensures faulted == old(faulted) && initial == old(initial)
    {
      if tx.committed || tx.aborted {
        return;
      }
      tx.aborted := true;
      ongoing := ongoing - {tx.version};
      UpdateMinVer();
    }

    /** The end of a successful commit: flags, the set of ongoing transactions and minVer. */
    method MarkCommitted(tx: Tx)
      requires Bookkeeping() && DroppedAreOld() && tx in txs && !tx.committed && !tx.aborted
      modifies this`ongoing, this`minVer, this`log, this`committers, tx`committed
      ensures Bookkeeping() && DroppedAreOld() && tx.committed
      ensures log == old(log) + [tx.pending] && committers == old(committers) + [tx]
    {
      tx.committed := true;
      ongoing := ongoing - {tx.version};
      log, committers := log + [tx.pending], committers + [tx];
      UpdateMinVer();
    }

    /** The conflict test at commit; a conflict aborts the transaction. */
    method Refused(tx: Tx) returns (refused: bool)
      requires Valid() && tx in txs && !tx.committed && !tx.aborted
      modifies this`ongoing, tx`aborted
      ensures Valid() && tx.aborted == refused && Records() == old(Records())
      ensures refused <==> tx.isolation >= 3 && Conflict(Records(), tx.version, tx.readSet)
      ensures !refused ==> ongoing == old(ongoing)
    {
      refused := false;
      if tx.isolation >= SERIALIZABLE {
        TrimInvisible(dropped, history, tx.version, tx.readSet);
        refused := DetectConflicts(history, tx.version, tx.readSet);
        if refused {
          tx.aborted := true;
          ongoing := ongoing - {tx.version};
        }
      }
    }

    /**
     Commit. An accepted transaction's writes are applied once, on top of all earlier commits;
     a refused one leaves no trace. The conflict test answers as if no record had been dropped.
     */
    method Commit(tx: Tx) returns (ok: bool)
      requires Valid() && tx in txs
      modifies this`history, this`dropped, this`ongoing, this`minVer, this`log, this`committers, this`faulted
      modifies tx`committed, tx`aborted, kv
      ensures Valid()
      ensures ok ==> !old(tx.committed) && !old(tx.aborted) && tx.committed && log == old(log) + [tx.pending]
      ensures ok && !faulted ==> kv.data == Overlay(old(kv.data), tx.pending)
      ensures !ok ==> log == old(log) && tx.committed == old(tx.committed)
      ensures !ok && !faulted ==> kv.data == old(kv.data)
      ensures old(faulted) ==> faulted
      ensures !old(tx.committed) && !old(tx.aborted) ==>
                (tx.aborted <==> tx.isolation >= 3 && Conflict(old(Records()), tx.version, tx.readSet))
      ensures !old(tx.committed) && !old(tx.aborted) && !faulted ==> (ok <==> !tx.aborted)
      ensures if old(tx.committed) || tx.aborted || tx.pending == map[] then Records() == old(Records())
              else Recorded(old(Records()), Records(), tx.version, tx.pending)
    {
      if tx.committed || tx.aborted {
        return false;
      }
      var refused := Refused(tx);
      if refused {
        ok := false;
      } else if |tx.pending| == 0 {
        ok := CommitNothing(tx);
      } else {
        ok := Apply(tx);
      }
    }

    /** A transaction without writes only has to finish. */
    method CommitNothing(tx: Tx) returns (ok: bool)
      requires Valid() && tx in txs && !tx.committed && !tx.aborted && tx.pending == map[]
      modifies this`ongoing, this`minVer, this`log, this`committers, tx`committed
      ensures Valid() && ok && tx.committed && log == old(log) + [tx.pending] && Records() == old(Records())
      ensures Overlay(kv.data, tx.pending) == kv.data
    {
      MarkCommitted(tx);
      ReplayAppend(initial, old(log), tx.pending);
      assert Overlay(kv.data, tx.pending) == kv.data;
      ok := true;
    }

    /** Record the write ranges, apply the writes, and finish; a store error leaves the rest undone. */
    method Apply(tx: Tx) returns (ok: bool)
      requires Valid() && tx in txs && !tx.committed && !tx.aborted
      modifies this`history, this`dropped, this`ongoing, this`minVer, this`log, this`committers, this`faulted
      modifies tx`committed, kv
      ensures Valid() && tx.committed == ok && Recorded(old(Records()), Records(), tx.version, tx.pending)
      ensures log == if ok then old(log) + [tx.pending] else old(log)
      ensures ok ==> kv.data == Overlay(old(kv.data), tx.pending) && faulted == old(faulted)
      ensures !ok ==> faulted
    {
      ok := RecordAndApply(tx);
      if ok {
        FinishApplied(tx);
      } else {
        faulted := true;
      }
    }

    method RecordAndApply(tx: Tx) returns (ok: bool)
      requires Bookkeeping() && DroppedAreOld() && tx in txs
      modifies this`history, kv
      ensures Bookkeeping() && DroppedAreOld() && Recorded(old(Records()), Records(), tx.version, tx.pending)
      ensures ok ==> kv.data == Overlay(old(kv.data), tx.pending)
    {
      var writes := WriteRanges(tx.pending);
      history := history + [Committed(tx.version, writes)];
      ok := ApplyAll(kv, tx.pending);
    }

    /** The writes are in the store: record the commit and trim the history. */
    method FinishApplied(tx: Tx)
      requires Bookkeeping() && DroppedAreOld() && tx in txs && !tx.committed && !tx.aborted
      requires !faulted ==> kv.data == Overlay(Replay(initial, log), tx.pending)
      modifies this`history, this`dropped, this`ongoing, this`minVer, this`log, this`committers, tx`committed
      ensures Valid() && tx.committed && log == old(log) + [tx.pending] && Records() == old(Records())
    {
      ReplayAppend(initial, log, tx.pending);
      MarkCommitted(tx);
      TrimHistory();
    }
  }
}
