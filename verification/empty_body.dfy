// A database that was told of two finalizations, with or without a lock before each, and wrote each to a chunk
// of its own.  Its tiered read leaves out the second batch, which is empty, when the first one uses up the
// size limit exactly.

module EmptyBody {
  import opened Batches
  import opened BatchSequences
  import opened Certificates
  import opened ReplicatedLog
  import opened Snapshots
  import opened Images
  import opened TieredReads
  import opened Database

  function Start(full: Body): Log {
    Append(EMPTY_LOG, [full, []])
  }

  function HashTo(full: Body, i: int): Hash {
    if i == 1 then LinkHash(NoHash, BodyHash(full)) else LinkHash(LinkHash(NoHash, BodyHash(full)), BodyHash([]))
  }

  /** The lock and the finalization of batch i behind the one before it, signed by everybody. */
  function Promotion(net: Network, full: Body, state: State, i: int): SignatureData {
    CertFor(net, net.Ids(), SyncPoint(state, i, HashTo(full, i), 0, i - 1))
  }

  /** The log with the first n batches finalized, each locked before or not. */
  function Stage(net: Network, full: Body, locking: bool, n: nat): (log: Log)
    requires n <= 2
    ensures |log.entries| == 2
    decreases n, 1
  {
    if n == 0 then Start(full)
    else WithFinalization(LockedStage(net, full, locking, n), Promotion(net, full, Locked, n))
  }

  /** The log before the finalization of batch n. */
  function LockedStage(net: Network, full: Body, locking: bool, n: nat): (log: Log)
    requires 1 <= n <= 2
    ensures |log.entries| == 2
    decreases n, 0
  {
    var log := Stage(net, full, locking, n - 1);
    if locking then WithLock(log, Promotion(net, full, Sequenced, n)) else log
  }

  lemma StartMeaning(full: Body)
    ensures Start(full).entries == [NewBatch(full, HashTo(full, 1)), NewBatch([], HashTo(full, 2))]
  {
    assert [full, []][..1] == [full] && [full][..0] == [];
    assert Append(EMPTY_LOG, []) == EMPTY_LOG;
    assert Append(EMPTY_LOG, [full]).entries == [NewBatch(full, HashTo(full, 1))];
  }

  lemma {:induction false} StageMeaning(net: Network, full: Body, locking: bool, n: nat)
    requires n <= 2
    ensures var log := Stage(net, full, locking, n);
      && Bodies(log.entries) == [full, []] && log.base == 0 && log.LastFinalized() == log.locked == n
      && log.At(1).chainingHash == HashTo(full, 1) && log.At(2).chainingHash == HashTo(full, 2)
      && (n > 0 ==> log.points != [] && log.points[0] == 1 && (log.At(n).lockedCert.Some? <==> locking))
      && (n < 2 ==> log.At(n + 1).lockedCert.None?)
  {
    if n == 0 {
      StartMeaning(full);
    } else {
      StageMeaning(net, full, locking, n - 1);
    }
  }

  /** Each stage follows from the one before by promotions. */
  lemma StagePromotes(net: Network, full: Body, locking: bool, n: nat)
    requires net.Valid() && net.threshold <= 100.0 && n < 2
    ensures locking ==> Promote(net, Stage(net, full, locking, n), Promotion(net, full, Sequenced, n + 1)) ==
                        (Promotes, LockedStage(net, full, locking, n + 1))
    ensures Promote(net, LockedStage(net, full, locking, n + 1), Promotion(net, full, Locked, n + 1)) ==
            (Promotes, Stage(net, full, locking, n + 1))
  {
    StageMeaning(net, full, locking, n);
    assert IsQuorum(net, net.Ids()) by {
      TotalPositive(net);
    }
    QuorumAccepted(net, net.Ids(), Promotion(net, full, Sequenced, n + 1).point);
    QuorumAccepted(net, net.Ids(), Promotion(net, full, Locked, n + 1).point);
  }

  lemma {:induction false} StageValid(net: Network, full: Body, locking: bool, n: nat)
    requires net.Valid() && net.threshold <= 100.0 && n <= 2
    ensures Stage(net, full, locking, n).Valid()
  {
    if n == 0 {
      EmptyLogValid();
      AppendValid(EMPTY_LOG, [full, []]);
    } else {
      StageValid(net, full, locking, n - 1);
      StagePromotes(net, full, locking, n - 1);
      PromoteValid(net, Stage(net, full, locking, n - 1), Promotion(net, full, Sequenced, n));
      PromoteValid(net, LockedStage(net, full, locking, n), Promotion(net, full, Locked, n));
    }
  }

  /** The same once two chunks have been written, so that the first batch has left memory. */
  function Settled(net: Network, full: Body, locking: bool, n: nat): (log: Log)
    requires n <= 2
    ensures |log.entries| == 2
  {
    if n == 2 then Stage(net, full, locking, n).(base := 1) else Stage(net, full, locking, n)
  }

  lemma SettledValid(net: Network, full: Body, locking: bool)
    requires net.Valid() && net.threshold <= 100.0
    ensures Settled(net, full, locking, 2).Valid()
  {
    var log := Stage(net, full, locking, 2);
    StageValid(net, full, locking, 2);
    StageMeaning(net, full, locking, 2);
    ApplyValid(net, log, Pruning(1));
    assert Apply(net, log, Pruning(1)) == Settled(net, full, locking, 2);
  }

  /** The database holds this log, with each finalized batch in a chunk of its own. */
  ghost predicate HoldsLog(db: InMemoryDB, log: Log, n: nat)
    requires n <= 2
    reads db, db.operational, db.snapshots
  {
    && db.Valid() && db.chunkSizeKb == 0.0 && db.removeChunkBorder == 2 && db.AsLog() == log
    && |db.snapshots.Persisted()| == n && db.snapshots.Ends() == [1, 2][..n]
  }

  /** A finalization writes one more chunk, and the second one drops the first batch from memory. */
  lemma NextStored(net: Network, full: Body, locking: bool, n: nat, disk: seq<Batch>)
    requires n < 2 && |disk| == n
    ensures var log := Stage(net, full, locking, n + 1);
      && |Stored(disk, log, 0.0)| == n + 1
      && Grown([1, 2][..n], n, n + 1) == [1, 2][..n + 1]
      && Prune(log, if n == 0 then 0 else 1) == Settled(net, full, locking, n + 1)
  {
    StageMeaning(net, full, locking, n + 1);
  }

  method LockNext(db: InMemoryDB, full: Body, n: nat)
    requires n < 2 && HoldsLog(db, Stage(db.net, full, true, n), n) && db.net.threshold <= 100.0
    modifies db`operational, db`firstFinalizedIndex, db`pruned, db`points, db.operational, db.snapshots
    ensures HoldsLog(db, LockedStage(db.net, full, true, n + 1), n)
    ensures db.operational == old(db.operational) || fresh(db.operational)
  {
    StagePromotes(db.net, full, true, n);
    var outcome := db.PromoteBatches(Promotion(db.net, full, Sequenced, n + 1));
  }

  method FinalizeNext(db: InMemoryDB, full: Body, locking: bool, n: nat)
    requires n < 2 && HoldsLog(db, LockedStage(db.net, full, locking, n + 1), n) && db.net.threshold <= 100.0
    modifies db`operational, db`firstFinalizedIndex, db`pruned, db`points, db.operational, db.snapshots
    ensures HoldsLog(db, Settled(db.net, full, locking, n + 1), n + 1)
    ensures db.operational == old(db.operational) || fresh(db.operational)
  {
    StagePromotes(db.net, full, locking, n);
    NextStored(db.net, full, locking, n, db.snapshots.Persisted());
    var outcome := db.PromoteBatches(Promotion(db.net, full, Locked, n + 1));
    db.snapshots.BorderOfEnds(2);
  }

  method PromoteNext(db: InMemoryDB, full: Body, locking: bool, n: nat)
    requires n < 2 && HoldsLog(db, Stage(db.net, full, locking, n), n) && db.net.threshold <= 100.0
    modifies db`operational, db`firstFinalizedIndex, db`pruned, db`points, db.operational, db.snapshots
    ensures HoldsLog(db, Settled(db.net, full, locking, n + 1), n + 1)
    ensures db.operational == old(db.operational) || fresh(db.operational)
  {
    if locking {
      LockNext(db, full, n);
    }
    FinalizeNext(db, full, locking, n);
  }

  /** The read takes one batch, though both fit. */
  lemma ReadsOne(full: Body, n: int)
    requires full != [] && ReadsTo([1, 2], 1, 0, [full, []], SizeKb(full), n)
    ensures n == 1 && IsLongestFit([full, []], SizeKb(full), 2)
  {
    var bodies := [full, []];
    OneMoreKb(bodies, 0);
    OneMoreKb(bodies, 1);
    assert KbTo(bodies, 1) == KbTo(bodies, 2) == SizeKb(full);
    assert Reaches(bodies, SizeKb(full), 1);
    assert IsCut([1, 2], 1, 0, bodies, SizeKb(full), Some(1));
    assert bodies[..1] == [full] && KbTo([full], 1) == SizeKb(full);
    assert StopsAt(bodies, SizeKb(full), Some(1), 1);
    ReadUnique([1, 2], 1, 0, bodies, SizeKb(full), n, 1);
  }

  lemma StageReadsOne(net: Network, full: Body, locking: bool, r: Run)
    requires full != [] && Settled(net, full, locking, 2).Ordered()
    requires IsReadOf(Settled(net, full, locking, 2), [1, 2], Finalized, 0, SizeKb(full), r)
    ensures |r.batches| == 1 && IsLongestFit([full, []], SizeKb(full), 2)
  {
    var log := Settled(net, full, locking, 2);
    StageMeaning(net, full, locking, 2);
    assert Wanted(log, Finalized, 0) == log.entries;
    ReadsOne(full, |r.batches|);
  }

  method TwoBatches(net: Network, full: Body) returns (db: InMemoryDB)
    requires net.Valid()
    ensures fresh(db) && fresh(db.operational) && fresh(db.snapshots) && HoldsLog(db, Start(full), 0)
    ensures db.net == net && db.receiveLimitKb == SizeKb(full)
  {
    db := new InMemoryDB(net, 2, 0.0, SizeKb(full));
    db.InsertSequencedBatchBodies([full, []]);
  }

  method TwoChunks(net: Network, full: Body, locking: bool) returns (db: InMemoryDB)
    requires net.Valid() && net.threshold <= 100.0
    ensures fresh(db) && fresh(db.operational) && HoldsLog(db, Settled(net, full, locking, 2), 2)
    ensures db.net == net && db.receiveLimitKb == SizeKb(full)
  {
    db := TwoBatches(net, full);
    PromoteNext(db, full, locking, 0);
    assert HoldsLog(db, Stage(net, full, locking, 1), 1);
    PromoteNext(db, full, locking, 1);
  }

  /** Both batches are finalized and fit the limit, but only one comes back. */
  method EmptyBodyLeftOut(net: Network, full: Body, locking: bool) returns (db: InMemoryDB, result: BatchSequence)
    requires net.Valid() && net.threshold <= 100.0 && full != []
    ensures db.Valid() && Bodies(db.AsLog().entries) == [full, []] && db.AsLog().LastFinalized() == 2
    ensures IsLongestFit([full, []], db.receiveLimitKb, 2) && |result.batches| == 1
  {
    db := TwoChunks(net, full, locking);
    result := db.GetGlobalOperationalBatchSequence(Finalized, 0);
    assert [1, 2][..2] == [1, 2];
    StageMeaning(net, full, locking, 2);
    StageReadsOne(net, full, locking, result.View());
  }
}
