// The in-memory database of a node for one app (common/db.py): the operational batch sequence,
// the queue of bodies waiting to be sequenced, and the snapshot chunks.

module Database {
  import opened Batches
  import opened BatchSequences
  import opened Certificates
  import opened ReplicatedLog
  import opened Snapshots
  import opened Images
  import opened TieredReads

  function Reversed(bodies: seq<Body>): (r: seq<Body>)
    ensures |r| == |bodies| && forall b :: b in r <==> b in bodies
  {
    if bodies == [] then [] else Reversed(bodies[1..]) + [bodies[0]]
  }

  lemma {:induction false} ReversedAt(bodies: seq<Body>, i: nat)
    requires i < |bodies|
    ensures Reversed(bodies)[i] == bodies[|bodies| - 1 - i]
  {
    if i < |bodies| - 1 {
      ReversedAt(bodies[1..], i);
    }
  }

  lemma {:induction false} ReversedBodies(bodies: seq<Body>)
    ensures multiset(Reversed(bodies)) == multiset(bodies)
  {
    if bodies != [] {
      ReversedBodies(bodies[1..]);
      assert bodies == [bodies[0]] + bodies[1..];
    }
  }

  class InMemoryDB {
    const net: Network
    const removeChunkBorder: nat
    const chunkSizeKb: real
    const receiveLimitKb: real

    var operational: BatchSequence
    var initialized: seq<Body>
    var firstFinalizedIndex: Option<int>
    var snapshots: SnapshotManager

    /** The entries that have been dropped from memory, and the sync points so far. */
    ghost var pruned: seq<Batch>
    ghost var points: seq<int>

    ghost function Picture(): Image
      reads this, operational, snapshots
    {
      Image(pruned, points, operational.View(), snapshots.Persisted(), firstFinalizedIndex)
    }

    /** The whole log: what was pruned and what is in memory. */
    ghost function AsLog(): Log
      reads this, operational, snapshots
    {
      Picture().AsLog()
    }

    ghost predicate Valid()
      reads this, operational, snapshots
    {
      && net.Valid() && removeChunkBorder >= 2
      && operational.Valid() && snapshots.Valid()
      && Picture().Valid()
    }

    constructor (net: Network, removeChunkBorder: nat, chunkSizeKb: real, receiveLimitKb: real)
      requires net.Valid() && removeChunkBorder >= 2
      ensures Valid() && AsLog() == EMPTY_LOG && initialized == [] && snapshots.Persisted() == [] &&
              snapshots.Ends() == []
      ensures this.net == net && this.removeChunkBorder == removeChunkBorder
      ensures this.chunkSizeKb == chunkSizeKb && this.receiveLimitKb == receiveLimitKb
      ensures fresh(operational) && fresh(snapshots)
    {
      this.net, this.removeChunkBorder := net, removeChunkBorder;
      this.chunkSizeKb, this.receiveLimitKb := chunkSizeKb, receiveLimitKb;
      operational := new BatchSequence(Run(1, [], None, None));
      snapshots := new SnapshotManager();
      initialized, firstFinalizedIndex, pruned, points := [], None, [], [];
    }

    /** The chaining hash of the last batch in memory. */
    method LastChainingHash() returns (chain: Hash)
      requires Valid()
      ensures chain == LastHash(AsLog().entries)
    {
      LastHashInMemory(Picture());
      var last := operational.View().LastOr(Sequenced, 0);
      chain := if last == 0 then NoHash else operational.View().Get(last).value.chainingHash;
    }

    /** Append one body behind the last chaining hash. */
    method AppendBody(body: Body, chain: Hash) returns (next: Hash)
      requires Valid() && chain == LastHash(AsLog().entries)
      modifies operational
      ensures Valid() && AsLog() == Append(old(AsLog()), [body])
      ensures next == LastHash(AsLog().entries)
    {
      AppendedLog(Picture(), body);
      next := LinkHash(chain, BodyHash(body));
      AppendedHash(AsLog(), body);
      var _ := operational.Append(NewBatch(body, next));
      assert Picture() == Appended(old(Picture()), NewBatch(body, next));
    }

    /** Append the bodies a node sent, as the sequencer. */
    method SequencerInitBatchBodies(bodies: seq<Body>)
      requires Valid()
      modifies operational
      ensures Valid() && AsLog() == Append(old(AsLog()), bodies)
    {
      if bodies == [] {
        return;
      }
      var chain := LastChainingHash();
      for i := 0 to |bodies|
        invariant Valid() && AsLog() == Append(old(AsLog()), bodies[..i])
        invariant chain == LastHash(AsLog().entries)
      {
        AppendSnoc(old(AsLog()), bodies, i);
        chain := AppendBody(bodies[i], chain);
      }
      assert bodies[..|bodies|] == bodies;
    }

    /** Append the bodies received from the sequencer. */
    method InsertSequencedBatchBodies(bodies: seq<Body>)
      requires Valid()
      modifies operational
      ensures Valid() && AsLog() == Append(old(AsLog()), bodies)
    {
      if bodies == [] {
        return;
      }
      var chain := LastChainingHash();
      for i := 0 to |bodies|
        invariant Valid() && AsLog() == Append(old(AsLog()), bodies[..i])
        invariant chain == LastHash(AsLog().entries)
      {
        AppendSnoc(old(AsLog()), bodies, i);
        chain := AppendBody(bodies[i], chain);
      }
      assert bodies[..|bodies|] == bodies;
    }

    /** Take the longest run of waiting bodies that fits. */
    method PopLimited(maxKb: real) returns (popped: seq<Body>)
      modifies this`initialized
      ensures popped + initialized == old(initialized)
      ensures IsLongestFit(old(initialized), maxKb, |popped|)
    {
      ghost var queue := initialized;
      var total := 0.0;
      popped := [];
      while |initialized| > 0
        invariant popped + initialized == queue
        invariant total == KbTo(queue, |popped|) && (popped != [] ==> total <= maxKb)
      {
        var body := initialized[0];
        initialized := initialized[1..];
        assert queue[|popped|] == body;
        if total + SizeKb(body) > maxKb {
          initialized := [body] + initialized;
          return;
        }
        popped := popped + [body];
        total := total + SizeKb(body);
      }
    }

    method InitBatchBodies(bodies: seq<Body>)
      modifies this`initialized
      ensures initialized == old(initialized) + bodies
    {
      initialized := initialized + bodies;
    }

    /** extendleft: the bodies come back to the front, in reverse. */
    method ReinitMissedBatchBodies(bodies: seq<Body>)
      modifies this`initialized
      ensures initialized == Reversed(bodies) + old(initialized)
    {
      var i := 0;
      assert bodies[0..] == bodies;
      while i < |bodies|
        invariant 0 <= i <= |bodies|
        invariant Reversed(bodies[i..]) + initialized == Reversed(bodies) + old(initialized)
      {
        assert bodies[i..][1..] == bodies[i + 1..];
        initialized := [bodies[i]] + initialized;
        i := i + 1;
      }
    }

    /** Lock or finalize up to a sync point, if its certificate verifies and fits the log. */
    method PromoteBatches(data: SignatureData) returns (outcome: Outcome)
      requires Valid()
      modifies this`operational, this`firstFinalizedIndex, this`pruned, this`points, operational, snapshots
      ensures Valid() && (operational == old(operational) || fresh(operational))
      ensures outcome == Promote(net, old(AsLog()), data).0
      ensures AsLog() == if outcome == Promotes && data.point.state == Locked
                         then Prune(Promote(net, old(AsLog()), data).1, snapshots.Border(removeChunkBorder))
                         else Promote(net, old(AsLog()), data).1
      ensures snapshots.Persisted() ==
              if outcome == Promotes && data.point.state == Locked
              then Stored(old(snapshots.Persisted()), Promote(net, old(AsLog()), data).1, chunkSizeKb)
              else old(snapshots.Persisted())
      ensures snapshots.Ends() == Grown(old(snapshots.Ends()), |old(snapshots.Persisted())|, |snapshots.Persisted()|)
    {
      outcome := Admits(data);
      if outcome != Promotes {
        return;
      }
      AdmittedPlaces(net, AsLog(), data);
      if data.point.state == Sequenced {
        RecordLock(data);
      } else {
        FinalizeUpTo(data);
      }
    }

    /** Record a finalization, then move old finalized batches to disk and out of memory. */
    method FinalizeUpTo(data: SignatureData)
      requires Valid()
      requires AsLog().LastFinalized() < data.point.index <= |AsLog().entries|
      modifies this`operational, this`firstFinalizedIndex, this`pruned, this`points, operational, snapshots
      ensures Valid() && fresh(operational)
      ensures AsLog() == Prune(WithFinalization(old(AsLog()), data), snapshots.Border(removeChunkBorder))
      ensures snapshots.Persisted() ==
                Stored(old(snapshots.Persisted()), WithFinalization(old(AsLog()), data), chunkSizeKb)
      ensures snapshots.Ends() == Grown(old(snapshots.Ends()), |old(snapshots.Persisted())|, |snapshots.Persisted()|)
    {
      RecordFinalization(data);
      StoreSnapshot(true);
      PruneOldFinalizedBatches();
    }

    /** The checks that come before anything is changed. */
    method Admits(data: SignatureData) returns (outcome: Outcome)
      requires Valid()
      ensures outcome == Promote(net, AsLog(), data).0
    {
      var p := data.point;
      if p.state != Sequenced && p.state != Locked {
        return Declines;
      }
      var verdict := Verify(net, data);
      if verdict == Raises {
        return Throws;
      }
      if verdict == Refuses {
        return Declines;
      }
      var target := if p.state == Sequenced then Locked else Finalized;
      var last := operational.View().LastOr(target, 0);
      var lastFinalized := operational.View().LastOr(Finalized, 0);
      WindowOfLog(Picture());
      if last != 0 && p.index <= last {
        return Declines;
      }
      if lastFinalized != 0 && p.parent != lastFinalized {
        return Declines;
      }
      if target == Locked && last != 0 && last != lastFinalized {
        return Declines;
      }
      var found := operational.View().Get(p.index);
      if found.None? || p.chainingHash != found.value.chainingHash {
        return Declines;
      }
      return Promotes;
    }

    method RecordLock(data: SignatureData)
      requires Valid()
      requires AsLog().LastFinalized() == AsLog().locked < data.point.index <= |AsLog().entries|
      modifies operational
      ensures Valid() && AsLog() == WithLock(old(AsLog()), data)
    {
      LockedLog(Picture(), data);
      var i := data.point.index;
      operational.UpdateAt(i, Marked(operational.View().Get(i).value, data, Locked));
      operational.Promote(i, Locked);
      assert Picture() == LockedImage(old(Picture()), data);
    }

    method RecordFinalization(data: SignatureData)
      requires Valid()
      requires AsLog().LastFinalized() < data.point.index <= |AsLog().entries|
      modifies operational, this`firstFinalizedIndex, this`points
      ensures Valid() && AsLog() == WithFinalization(old(AsLog()), data)
    {
      ghost var img := Picture();
      FinalizedLog(img, data);
      LinkPrevious(data.point.index);
      MarkFinalized(data);
      assert Picture() == FinalizedImage(img, data);
    }

    /** Store the certificate and raise the last finalized index. */
    method MarkFinalized(data: SignatureData)
      requires operational.Valid() && operational.View().Get(data.point.index).Some?
      modifies operational, this`points
      ensures operational.Valid() && points == old(points) + [data.point.index]
      ensures var i, view := data.point.index, old(operational.View());
        operational.View() == Updated(view, i, Marked(view.Get(i).value, data, Finalized)).Promoted(i, Finalized)
    {
      var i := data.point.index;
      operational.UpdateAt(i, Marked(operational.View().Get(i).value, data, Finalized));
      operational.Promote(i, Finalized);
      points := points + [i];
    }

    /** Let the last finalized sync point, if there is one, point to the next. */
    method LinkPrevious(i: int)
      requires Valid()
      modifies operational, this`firstFinalizedIndex
      ensures operational.Valid()
      ensures var last := old(operational.View()).LastOr(Finalized, 0);
        && operational.View() == LinkedView(old(operational.View()), last, i)
        && firstFinalizedIndex == if last == 0 then Some(i) else old(firstFinalizedIndex)
    {
      LinkedLog(Picture(), i);
      WindowOfLog(Picture());
      var previous := operational.View().LastOr(Finalized, 0);
      if previous != 0 {
        operational.UpdateAt(previous, operational.View().Get(previous).value.(next := Some(i)));
      } else {
        firstFinalizedIndex := Some(i);
      }
    }

    /** Write the finalized batches that are not on disk yet: always, or once there are enough of them. */
    method StoreSnapshot(onlyIfSizeExceeds: bool)
      requires Valid()
      modifies snapshots
      ensures Valid() && AsLog() == old(AsLog())
      ensures |old(snapshots.Persisted())| <= AsLog().LastFinalized() <= |AsLog().entries|
      ensures snapshots.Persisted() ==
              if onlyIfSizeExceeds then Stored(old(snapshots.Persisted()), AsLog(), chunkSizeKb)
              else old(snapshots.Persisted()) + AsLog().entries[|old(snapshots.Persisted())|..AsLog().LastFinalized()]
      ensures snapshots.Ends() == Grown(old(snapshots.Ends()), |old(snapshots.Persisted())|, |snapshots.Persisted()|)
    {
      var unsaved := Unsaved();
      if onlyIfSizeExceeds && unsaved.sizeKb < chunkSizeKb {
        return;
      }
      ghost var img, more := Picture(), unsaved.batches;
      snapshots.StoreBatchSequence(unsaved);
      assert Picture() == img.(disk := img.disk + more);
    }

    /** The finalized batches behind the last persisted index. */
    method Unsaved() returns (unsaved: BatchSequence)
      requires Valid()
      ensures fresh(unsaved) && unsaved.Valid()
      ensures |snapshots.Persisted()| <= AsLog().LastFinalized() <= |AsLog().entries|
      ensures unsaved.batches == AsLog().entries[|snapshots.Persisted()|..AsLog().LastFinalized()]
      ensures unsaved.batches != [] ==> unsaved.View() == FinalizedRun(|snapshots.Persisted()| + 1, unsaved.batches)
      ensures Picture().(disk := snapshots.Persisted() + unsaved.batches).Valid()
    {
      var lastPersisted := snapshots.lastPersisted;
      var lastFinalized := operational.View().LastOr(Finalized, 0);
      WindowOfLog(Picture());
      snapshots.LastPersistedIndex();
      unsaved := operational.KeepBetween(Sequenced, lastPersisted, Some(lastFinalized));
      UnsavedLog(Picture(), lastPersisted, unsaved.View());
    }

    /** Drop from memory what only older chunks hold. */
    method PruneOldFinalizedBatches()
      requires Valid()
      modifies this`operational, this`pruned
      ensures Valid() && fresh(operational)
      ensures AsLog() == Prune(old(AsLog()), snapshots.Border(removeChunkBorder))
      // What stays in memory is what was there above the border.
      ensures forall i :: AsLog().InMemory(i) <==> old(AsLog()).InMemory(i) && i > snapshots.Border(removeChunkBorder)
    {
      var border := snapshots.GetLatestChunksStartIndex(removeChunkBorder);
      PrunedLog(Picture(), border);
      WindowOfLog(Picture());
      pruned := PrunedImage(Picture(), border).pruned;
      operational := operational.KeepAfter(border);
      assert Picture() == PrunedImage(old(Picture()), border);
    }

    /** After a sequencer switch: what is not locked goes back to the queue. */
    method ReinitializeSequencedBatches()
      requires Valid()
      modifies this`operational, this`initialized
      ensures Valid() && fresh(operational)
      ensures AsLog() == Reset(old(AsLog()))
      ensures initialized == old(initialized) + ResetBodies(old(AsLog()))
    {
      var lastLocked := operational.View().LastOr(Locked, 0);
      WindowOfLog(Picture());
      ResetLog(Picture());
      var rest := operational.KeepAfter(lastLocked);
      QueueBodiesOf(rest.batches);
      operational := operational.KeepUpTo(lastLocked);
      assert Picture() == old(Picture()).(view := old(Picture()).view.UpTo(lastLocked));
    }

    /** Read the log behind an index in some state, from disk where memory does not reach back far enough. */
    method GetGlobalOperationalBatchSequence(state: State, start: int) returns (result: BatchSequence)
      requires Valid() && state != Initialized
      ensures fresh(result) && result.Valid()
      ensures IsReadOf(AsLog(), snapshots.Ends(), state, start, receiveLimitKb, result.View())
    {
      ghost var log, ends := AsLog(), snapshots.Ends();
      var after, full;
      result, after, full := ReadStorage(start);
      if full {
        result := CutStorage(result, state, start, after, log, ends);
      } else {
        result := AddMemory(result, state, start, after, log, ends);
      }
    }

    /** Load chunks until memory takes over or the limit is reached. */
    method ReadStorage(start: int) returns (result: BatchSequence, after: int, full: bool)
      requires Valid()
      ensures fresh(result) && result.Valid() && result.View().WellFormed()
      ensures full && receiveLimitKb > 0.0 ==> EndsEarly(Max(start, 0), after, result.View())
      ensures full ==> result.sizeKb >= receiveLimitKb
      ensures !full ==> Max(after, 0) >= |pruned| && ReadSoFar(snapshots.Persisted(), start, after, result.View())
      ensures !full && result.View().batches != [] ==> result.sizeKb < receiveLimitKb
    {
      result := new BatchSequence(Run(1, [], None, None));
      after := start;
      var remaining := receiveLimitKb;
      FirstInMemory();
      var first := operational.View().FirstOr(Finalized, 0);
      ghost var disk := snapshots.Persisted();
      while after + 1 < first
        invariant fresh(result) && result.Valid()
        invariant ReadSoFar(disk, start, after, result.View())
        invariant remaining == receiveLimitKb - result.sizeKb
        invariant result.View().batches != [] ==> result.sizeKb < receiveLimitKb
        invariant first == operational.View().FirstOr(Finalized, 0)
        decreases first - after
      {
        LoadMore(result, start, after, remaining);
        if result.sizeKb >= receiveLimitKb {
          after := result.View().LastOr(Sequenced, after);
          return result, after, true;
        }
        remaining := receiveLimitKb - result.sizeKb;
        after := result.View().LastOr(Sequenced, 0);
        first := operational.View().FirstOr(Finalized, 0);
      }
      full := false;
    }

    /** A prefix of the persisted log behind an index, up to the first chunk end by which the limit is reached. */
    ghost predicate EndsEarly(after: nat, c: int, view: Run)
      reads this, snapshots
    {
      && after < |pruned| && FirstReach(snapshots.Persisted(), snapshots.Ends(), after, receiveLimitKb, c)
      && view == FinalizedRun(after + 1, snapshots.Persisted()[after..c])
    }

    lemma FirstInMemory()
      requires Valid()
      ensures 0 <= operational.View().FirstOr(Finalized, 0) <= |pruned| + 1
      ensures |pruned| > 0 ==> operational.View().FirstOr(Finalized, 0) == |pruned| + 1
      ensures |pruned| <= |snapshots.Persisted()|
    {
      WindowOfLog(Picture());
    }

    /** Extend what has been read, which is nothing as long as memory does not take over. */
    method LoadMore(result: BatchSequence, ghost start: int, after: int, remaining: real)
      requires Valid() && result.Valid() && result != operational && result.View() == Run(1, [], None, None)
      requires after < |pruned| && Max(after, 0) == Max(start, 0) && remaining == receiveLimitKb
      modifies result
      ensures Valid() && result.Valid() && result.View().WellFormed()
      ensures Brings(start, after, result.View(), result.sizeKb)
    {
      var loaded := snapshots.LoadBatches(after, Some(remaining));
      StorageLoaded(start, after, loaded.View(), loaded.sizeKb);
      var ok := result.Extend(loaded);
    }

    /** What one load brings when nothing has been read yet. */
    ghost predicate Brings(start: int, after: int, view: Run, sizeKb: real)
      reads this, snapshots
    {
      && (after < 0 ==> view == Run(1, [], None, None))
      && (after >= 0 && receiveLimitKb > 0.0 && sizeKb >= receiveLimitKb ==>
            view.batches != [] && EndsEarly(after, view.Last(), view))
      && (after >= 0 && 0.0 <= sizeKb < receiveLimitKb ==>
            && view.batches != [] && view.Last() == |snapshots.Persisted()|
            && ReadSoFar(snapshots.Persisted(), start, view.Last(), view))
    }

    lemma StorageLoaded(start: int, after: int, view: Run, sizeKb: real)
      requires Valid() && after < |pruned|
      requires Max(after, 0) == Max(start, 0)
      requires exists k: nat :: snapshots.StopsWell(view, sizeKb, after, Some(receiveLimitKb), k)
      requires sizeKb == TotalKb(Bodies(view.batches))
      ensures view.WellFormed() && Brings(start, after, view, sizeKb)
    {
      var k: nat :| snapshots.StopsWell(view, sizeKb, after, Some(receiveLimitKb), k);
      if after >= 0 && receiveLimitKb > 0.0 {
        snapshots.LoadEnds(view, sizeKb, after, receiveLimitKb, k);
      }
    }

    method CutStorage(read: BatchSequence, state: State, ghost start: int, ghost after: int, ghost log: Log,
                      ghost ends: seq<int>) returns (result: BatchSequence)
      requires Valid() && log == AsLog() && ends == snapshots.Ends() && read.Valid() && read.View().WellFormed() &&
               state != Initialized
      requires receiveLimitKb > 0.0 ==> EndsEarly(Max(start, 0), after, read.View())
      ensures fresh(result) && result.Valid()
      ensures IsReadOf(log, ends, state, start, receiveLimitKb, result.View())
    {
      var cut := read.TruncateBySize(receiveLimitKb);
      result := cut.KeepBetween(state, None, None);
      if receiveLimitKb > 0.0 {
        StorageRead(Picture(), ends, state, start, receiveLimitKb, after, read.View(), cut.View(), result.View());
      } else {
        FinalizedKept(cut.View(), state, result.View());
      }
    }

    method AddMemory(read: BatchSequence, state: State, ghost start: int, after: int, ghost log: Log,
                     ghost ends: seq<int>) returns (result: BatchSequence)
      requires Valid() && log == AsLog() && ends == snapshots.Ends() && read.Valid() && state != Initialized
      requires read != operational
      requires Max(after, 0) >= |pruned| && ReadSoFar(snapshots.Persisted(), start, after, read.View())
      requires read.View().batches != [] ==> read.sizeKb < receiveLimitKb
      modifies read
      ensures result == read || fresh(result)
      ensures result.Valid() && IsReadOf(log, ends, state, start, receiveLimitKb, result.View())
    {
      var cut;
      ghost var all;
      cut, all := WantedMemory(state, after, receiveLimitKb - read.sizeKb);
      if |read.batches| > 0 {
        JoinedToRead(read.View(), state, start, after, all, |cut.batches|);
        var ok := read.Extend(cut);
        result := read;
      } else {
        MemoryRead(Picture(), ends, state, start, receiveLimitKb, all, |cut.batches|);
        result := cut;
      }
    }

    /** The entries in memory behind an index that have reached a state, as many as fit a limit. */
    method WantedMemory(state: State, after: int, limitKb: real) returns (cut: BatchSequence, ghost all: Run)
      requires Valid() && state != Initialized && Max(after, 0) >= |pruned|
      ensures fresh(cut) && cut.Valid() && IsWanted(AsLog(), state, after, all)
      ensures |cut.batches| <= |all.batches| && cut.View() == all.Take(|cut.batches|)
      ensures if limitKb > 0.0 then IsLongestFit(Bodies(all.batches), limitKb, |cut.batches|) else cut.batches == []
    {
      WindowOfLog(Picture());
      var memory := operational.KeepBetween(state, Some(after), None);
      all := memory.View();
      MemoryWanted(Picture(), state, after, all);
      cut := memory.TruncateBySize(limitKb);
    }

    lemma JoinedToRead(read: Run, state: State, start: int, after: int, m: Run, n: nat)
      requires Valid() && state != Initialized
      requires read.batches != [] && ReadSoFar(snapshots.Persisted(), start, after, read)
      requires TotalKb(Bodies(read.batches)) < receiveLimitKb
      requires IsWanted(AsLog(), state, after, m) && n <= |m.batches|
      requires IsLongestFit(Bodies(m.batches), receiveLimitKb - TotalKb(Bodies(read.batches)), n)
      ensures read.CanExtend(m.Take(n))
      ensures IsReadOf(AsLog(), snapshots.Ends(), state, start, receiveLimitKb, read.Extended(m.Take(n)))
    {
      snapshots.EndsBound();
      var disk := snapshots.Persisted();
      assert disk[..|disk|] == disk;
      assert TooSmall(disk, Max(start, 0), receiveLimitKb, |disk|);
      JoinedRead(Picture(), snapshots.Ends(), state, start, receiveLimitKb, m, n);
    }

    method QueueBodiesOf(batches: seq<Batch>)
      modifies this`initialized
      ensures initialized == old(initialized) + Bodies(batches)
    {
      var i := 0;
      while i < |batches|
        invariant 0 <= i <= |batches|
        invariant initialized == old(initialized) + Bodies(batches)[..i]
      {
        initialized := initialized + [batches[i].body];
        i := i + 1;
      }
    }
  }

  lemma AppendedHash(log: Log, body: Body)
    ensures LastHash(Append(log, [body]).entries) == LinkHash(LastHash(log.entries), BodyHash(body))
  {
    assert [body][..0] == [];
  }

  lemma AdmittedPlaces(net: Network, log: Log, data: SignatureData)
    requires net.Valid() && log.Ordered() && Promote(net, log, data).0 == Promotes
    ensures data.point.state == Sequenced || data.point.state == Locked
    ensures log.LastFinalized() < data.point.index <= |log.entries|
    ensures data.point.state == Sequenced ==> log.LastFinalized() == log.locked
    ensures Promote(net, log, data).1 ==
              if data.point.state == Sequenced then WithLock(log, data) else WithFinalization(log, data)
  {
  }
}
