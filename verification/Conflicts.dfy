/** Read and write ranges, the committed history and the conflict test of tx.go. */
module Conflicts {
  import opened Bytes

  /** An empty stop means no upper end. */
  datatype KeyRange = KeyRange(start: seq<byte>, stop: seq<byte>)

  datatype Committed = Committed(version: nat, writes: seq<KeyRange>)

  /** keyRangeOverlap. */
  predicate Overlap(a: KeyRange, b: KeyRange) {
    && !(b.stop != [] && Less(b.stop, a.start))
    && !(a.stop != [] && Less(a.stop, b.start))
  }

  /** rangesOverlap. */
  ghost predicate AnyOverlap(readSet: seq<KeyRange>, writes: seq<KeyRange>) {
    exists i, j :: 0 <= i < |readSet| && 0 <= j < |writes| && Overlap(readSet[i], writes[j])
  }

  predicate Within(k: seq<byte>, r: KeyRange) {
    !Less(k, r.start) && (r.stop == [] || !Less(r.stop, k))
  }

  /** Two ranges that do not end before they start overlap if and only if they hold a key in common. */
  lemma OverlapIff(a: KeyRange, b: KeyRange)
    requires (a.stop == [] || !Less(a.stop, a.start)) && (b.stop == [] || !Less(b.stop, b.start))
    ensures Overlap(a, b) <==> exists k :: Within(k, a) && Within(k, b)
  {
    LessTotal(a.start, a.start);
    LessTotal(b.start, b.start);
    LessTotal(a.start, b.start);
    if Overlap(a, b) {
      assert Within(a.start, b) || Within(b.start, a);
    }
    if k :| Within(k, a) && Within(k, b) {
      NotBeyond(a, b, k);
      NotBeyond(b, a, k);
    }
  }

  lemma NotBeyond(a: KeyRange, b: KeyRange, k: seq<byte>)
    requires Within(k, a) && Within(k, b)
    ensures !(b.stop != [] && Less(b.stop, a.start))
  {
    if b.stop != [] && Less(b.stop, a.start) {
      LessTotal(k, b.stop);
      if k != b.stop {
        LessTrans(k, b.stop, a.start);
      }
    }
  }

  /**
   A read range that starts at a key and is open, or names the key, meets a write of a key exactly
   when it holds the key. The empty key makes an open range and meets everything.
   */
  lemma OverlapMeansShared(r: KeyRange, k: seq<byte>)
    requires r.stop == [] || r.start == r.stop
    ensures Overlap(r, KeyRange(k, k)) <==> k == [] || (if r.stop == [] then !Less(k, r.start) else r.start == k)
  {
    LessTotal(r.start, k);
  }

  /** Some write does not end before the key. */
  ghost predicate Reaches(writes: seq<KeyRange>, key: seq<byte>) {
    exists j :: 0 <= j < |writes| && (writes[j].stop == [] || !Less(writes[j].stop, key))
  }

  /** What reading everything from a key on adds: it meets every write that does not end before the key. */
  lemma OverlapFrom(readSet: seq<KeyRange>, key: seq<byte>, writes: seq<KeyRange>)
    ensures AnyOverlap(readSet + [KeyRange(key, [])], writes)
       <==> AnyOverlap(readSet, writes) || Reaches(writes, key)
  {
    var r := readSet + [KeyRange(key, [])];
    assert forall i :: 0 <= i < |readSet| ==> r[i] == readSet[i];
    assert forall j :: 0 <= j < |writes| ==>
             (Overlap(r[|readSet|], writes[j]) <==> writes[j].stop == [] || !Less(writes[j].stop, key));
  }

  method RangesOverlap(readSet: seq<KeyRange>, writes: seq<KeyRange>) returns (r: bool)
    ensures r == AnyOverlap(readSet, writes)
  {
    var i := 0;
    while i < |readSet|
      invariant i <= |readSet|
      invariant forall x, y :: 0 <= x < i && 0 <= y < |writes| ==> !Overlap(readSet[x], writes[y])
    {
      var j := 0;
      while j < |writes|
        invariant j <= |writes|
        invariant forall y :: 0 <= y < j ==> !Overlap(readSet[i], writes[y])
      {
        if Overlap(readSet[i], writes[j]) {
          return true;
        }
        j := j + 1;
      }
      i := i + 1;
    }
    return false;
  }

  /**
   What detectConflicts reports: some commit overlaps what was read, and it and every commit
   recorded after it belong to transactions that began after the reader.
   */
  ghost predicate Conflict(history: seq<Committed>, version: nat, readSet: seq<KeyRange>) {
    exists i :: 0 <= i < |history| && AllAfter(history, i, version) && AnyOverlap(readSet, history[i].writes)
  }

  ghost predicate AllAfter(history: seq<Committed>, i: nat, version: nat) {
    forall j :: i <= j < |history| ==> version < history[j].version
  }

  /** The loop of detectConflicts, from the newest record back to the first old one. */
  method DetectConflicts(history: seq<Committed>, version: nat, readSet: seq<KeyRange>) returns (r: bool)
    ensures r == Conflict(history, version, readSet)
  {
    var i := |history|;
    while i > 0
      invariant 0 <= i <= |history| && AllAfter(history, i, version)
      invariant forall j :: i <= j < |history| ==> !AnyOverlap(readSet, history[j].writes)
    {
      if !(version < history[i - 1].version) {
        break;
      }
      var overlap := RangesOverlap(readSet, history[i - 1].writes);
      if overlap {
        assert AllAfter(history, i - 1, version);
        return true;
      }
      i := i - 1;
    }
    return false;
  }

  /** Records older than the reader can be dropped from the front without changing the answer. */
  lemma TrimInvisible(dropped: seq<Committed>, history: seq<Committed>, version: nat, readSet: seq<KeyRange>)
    requires forall d :: 0 <= d < |dropped| ==> dropped[d].version < version
    ensures Conflict(dropped + history, version, readSet) <==> Conflict(history, version, readSet)
  {
    var full := dropped + history;
    assert forall j :: 0 <= j < |dropped| ==> full[j] == dropped[j];
    assert forall j :: 0 <= j < |history| ==> full[|dropped| + j] == history[j];
    if Conflict(full, version, readSet) {
      var i :| 0 <= i < |full| && AllAfter(full, i, version) && AnyOverlap(readSet, full[i].writes);
      assert i >= |dropped|;
      assert AllAfter(history, i - |dropped|, version);
      assert history[i - |dropped|] == full[i];
    }
    if Conflict(history, version, readSet) {
      var i :| 0 <= i < |history| && AllAfter(history, i, version) && AnyOverlap(readSet, history[i].writes);
      assert AllAfter(full, |dropped| + i, version);
    }
  }

  /**
   A commit is recorded under the version at which its transaction began. So a reader that
   began later than the writer is not told of the writer's commit, even one made after its read.
   */
  lemma EarlierWriterIsMissed(k: seq<byte>, writer: nat, reader: nat)
    requires writer < reader
    ensures var h, readSet := [Committed(writer, [KeyRange(k, k)])], [KeyRange(k, k)];
            AnyOverlap(readSet, h[0].writes) && !Conflict(h, reader, readSet)
  {
    var h, readSet := [Committed(writer, [KeyRange(k, k)])], [KeyRange(k, k)];
    LessTotal(k, k);
    assert Overlap(readSet[0], h[0].writes[0]);
    assert !AllAfter(h, 0, reader);
  }

  /** The records up to and including the last one that is not newer than the reader. */
  function Hidden(history: seq<Committed>, version: nat): (n: nat)
    ensures n <= |history|
  {
    if history == [] then 0
    else if history[|history| - 1].version <= version then |history|
    else Hidden(history[..|history| - 1], version)
  }

  lemma {:induction false} HiddenEnd(history: seq<Committed>, version: nat, i: nat)
    requires i < |history|
    ensures AllAfter(history, i, version) <==> Hidden(history, version) <= i
  {
    var last := |history| - 1;
    if history[last].version > version && i < last {
      HiddenEnd(history[..last], version, i);
      assert AllAfter(history, i, version) <==> AllAfter(history[..last], i, version);
    }
  }

  /** An overlap is reported if and only if it lies behind the last record that is not newer than the reader. */
  lemma ReportedIff(history: seq<Committed>, version: nat, readSet: seq<KeyRange>)
    ensures Conflict(history, version, readSet)
       <==> exists i :: Hidden(history, version) <= i < |history| && AnyOverlap(readSet, history[i].writes)
  {
    forall i: nat | i < |history| ensures AllAfter(history, i, version) <==> Hidden(history, version) <= i {
      HiddenEnd(history, version, i);
    }
  }
}
