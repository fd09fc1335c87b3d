// How a follower's log comes to lack the lock certificate that a sequencer has to send with every answer
// (sequencer/routers.py), and why a node that becomes sequencer with such a log is stuck with it.

module LostLocks {
  import opened Batches
  import opened Certificates
  import opened ReplicatedLog
  import opened TieredReads
  import opened Sequencers
  import opened Followers
  import opened CatchUp

  /** The states of the certificates are those that the sequencer's handler puts into an answer. */
  ghost predicate WellStated(r: Response) {
    && (r.lastLocked.Some? ==> r.lastLocked.value.point.state == Sequenced)
    && (forall j | 0 <= j < |r.finalized| :: r.finalized[j].point.state == Locked)
  }

  /** Finalizing one certificate after the other, the lock is lost by ending above the locked index. */
  lemma {:induction false} FinalizeLost(net: Network, log: Log, infos: seq<SignatureData>, j: nat)
    requires net.Valid() && log.Valid() && j <= |infos|
    requires forall i | j <= i < |infos| :: infos[i].point.state == Locked
    ensures var r := FinalizeFrom(net, log, infos, j).1;
      && r.LastFinalized() >= log.LastFinalized()
      && (LockLost(r) <==>
          if r.LastFinalized() > log.LastFinalized() then r.LastFinalized() > log.locked else LockLost(log))
    decreases |infos| - j
  {
    if j < |infos| && Promote(net, log, infos[j]).0 == Promotes {
      var next := Promote(net, log, infos[j]).1;
      PromoteValid(net, log, infos[j]);
      LockLostExactly(net, log, infos[j]);
      FinalizeLost(net, next, infos, j + 1);
    }
  }

  lemma AppendLost(log: Log, bodies: seq<Body>)
    requires log.locked <= |log.entries|
    ensures LockLost(Append(log, bodies)) <==> LockLost(log)
  {
    if 1 <= log.locked {
      assert Append(log, bodies).At(log.locked) == log.At(log.locked);
    }
  }

  /** What an answer leaves a follower with: the last sync point was never locked by it, exactly if the answer
      finalizes beyond what the follower has locked by then, or changes nothing about a log that was so before. */
  lemma SyncedLost(net: Network, log: Log, r: Response)
    requires net.Valid() && log.Valid() && WellStated(r)
    ensures var lock := LockedFirst(net, Append(log, r.bodies), r.lastLocked);
      var final := Synced(net, log, r).1;
      LockLost(final) <==>
        if final.LastFinalized() > log.LastFinalized() then final.LastFinalized() > lock.1.locked
        else LockLost(log) && lock.0 != Promotes
  {
    AppendValid(log, r.bodies);
    AppendLost(log, r.bodies);
    var lock := LockedFirst(net, Append(log, r.bodies), r.lastLocked);
    LockedFirstLost(net, Append(log, r.bodies), r.lastLocked);
    FinalizeLost(net, lock.1, r.finalized, 0);
  }

  /** A lock that is accepted makes up for a lost one. */
  lemma LockedFirstLost(net: Network, log: Log, info: Option<SignatureData>)
    requires net.Valid() && log.Valid() && (info.Some? ==> info.value.point.state == Sequenced)
    ensures var lock := LockedFirst(net, log, info);
      && lock.1.Valid() && lock.1.points == log.points
      && (LockLost(lock.1) <==> LockLost(log) && lock.0 != Promotes)
  {
    if info.Some? {
      PromoteValid(net, log, info.value);
      if Promote(net, log, info.value).0 == Promotes {
        LockLostExactly(net, log, info.value);
      }
    }
  }

  /** The follower will lock what the answer has locked: it is new and its batch is there, its certificate verifies,
      and it stands on what the follower has finalized, with nothing locked in between. */
  predicate LockTaken(net: Network, log: Log, r: Response)
    requires net.Valid()
  {
    && r.lastLocked.Some?
    && log.locked < r.lastLocked.value.point.index <= |log.entries| + |r.bodies|
    && Verify(net, r.lastLocked.value) == Accepts
    && (log.LastFinalized() == 0 || r.lastLocked.value.point.parent == log.LastFinalized())
    && (log.locked == 0 || log.locked == log.LastFinalized())
  }

  function LockedThen(net: Network, log: Log, r: Response): int
    requires net.Valid()
  {
    if LockTaken(net, log, r) then r.lastLocked.value.point.index else log.locked
  }

  lemma LockTakenExactly(net: Network, log: Log, leader: Log, r: Response)
    requires net.Valid() && log.Valid() && leader.Valid() && LocksKnown(net, leader) && !LockLost(leader)
    requires Append(log, r.bodies).Valid() && Trails(Append(log, r.bodies), leader) && r.lastLocked == LockInfo(leader)
    ensures var lock := LockedFirst(net, Append(log, r.bodies), r.lastLocked);
      && lock.0 == (if LockTaken(net, log, r) then Promotes else Declines)
      && lock.1.locked == LockedThen(net, log, r)
  {
    LockInfoNeverRaises(net, leader);
    var inserted := Append(log, r.bodies);
    if r.lastLocked.Some? && log.locked < leader.locked <= |inserted.entries| {
      SameHash(inserted, leader, leader.locked);
    }
  }

  /** What an answer leaves a follower with, in terms of the follower's log and the answer: no lock certificate, exactly
      if a finalization whose batch is there lies beyond what the follower has locked or will lock, or if none is
      there and the certificate was missing before. */
  lemma AnswerLosesLock(net: Network, log: Log, leader: Log, ends: seq<int>, limitKb: real, request: Request,
                        offered: seq<Body>, lo: nat, r: Response)
    requires net.Valid() && log.Valid() && Trails(log, leader)
    requires leader.Valid() && leader.Certified(net) && LocksKnown(net, leader)
    requires Asks(log, leader, request) && Answers(leader, ends, limitKb, request, offered, lo, Some(r))
    ensures LockLost(Synced(net, log, r).1) <==>
              || (exists f | f in r.finalized ::
                    LockedThen(net, log, r) < f.point.index <= |log.entries| + |r.bodies|)
              || (LockLost(log) && !LockTaken(net, log, r)
                  && forall f | f in r.finalized :: f.point.index > |log.entries| + |r.bodies|)
  {
    var k := AnswerStages(net, log, leader, ends, limitKb, request, offered, lo, r);
    var last := LastOffered(request.sequencedIndex, offered);
    ListedWithin(leader, lo, last, r.finalized, |log.entries| + |offered|, k);
    AheadOf(log, leader, request, lo, k, r.finalized);
  }

  /** Lock, then as many finalizations as there are batches for. */
  lemma AnswerStages(net: Network, log: Log, leader: Log, ends: seq<int>, limitKb: real, request: Request,
                     offered: seq<Body>, lo: nat, r: Response) returns (k: nat)
    requires net.Valid() && log.Valid() && Trails(log, leader)
    requires leader.Valid() && leader.Certified(net) && LocksKnown(net, leader)
    requires Asks(log, leader, request) && Answers(leader, ends, limitKb, request, offered, lo, Some(r))
    ensures k <= |r.finalized| && (0 < k ==> leader.points[lo + k - 1] <= |log.entries| + |offered|)
    ensures k < |r.finalized| ==> leader.points[lo + k] > |log.entries| + |offered|
    ensures var final := Synced(net, log, r).1.LastFinalized();
      && final == (if 0 < k then leader.points[lo + k - 1] else log.LastFinalized())
      && (LockLost(Synced(net, log, r).1) <==>
            if final > log.LastFinalized() then final > LockedThen(net, log, r)
            else LockLost(log) && !LockTaken(net, log, r))
  {
    AnswerWellStated(leader, ends, limitKb, request, offered, lo, r);
    SyncedLost(net, log, r);
    var lock := LockStage(net, log, leader, ends, limitKb, request, offered, lo, r);
    var final;
    k, final := AcceptedPart(net, lock, leader, lo, LastOffered(request.sequencedIndex, offered), r.finalized);
  }

  lemma LockStage(net: Network, log: Log, leader: Log, ends: seq<int>, limitKb: real, request: Request,
                  offered: seq<Body>, lo: nat, r: Response) returns (lock: Log)
    requires net.Valid() && log.Valid() && Trails(log, leader)
    requires leader.Valid() && leader.Certified(net) && LocksKnown(net, leader)
    requires Asks(log, leader, request) && Answers(leader, ends, limitKb, request, offered, lo, Some(r))
    ensures LockedFirst(net, Append(log, offered), r.lastLocked) ==
            (if LockTaken(net, log, r) then Promotes else Declines, lock)
    ensures lock.Valid() && Trails(lock, leader) && lock.points == log.points && lock.locked == LockedThen(net, log, r)
    ensures |lock.entries| == |log.entries| + |offered|
  {
    lock := LockedFirst(net, Append(log, offered), r.lastLocked).1;
    InsertedTrails(log, leader, ends, limitKb, offered);
    LockTakenExactly(net, log, leader, r);
    LockedFirstLost(net, Append(log, offered), r.lastLocked);
    LockedFirstKept(net, Append(log, offered), r.lastLocked);
  }

  /** The part of a list that lies within a log. */
  lemma ListedWithin(leader: Log, lo: nat, last: Option<int>, infos: seq<SignatureData>, length: nat, k: nat)
    requires leader.Linked() && lo <= |leader.points| && Collected(leader, lo, last, infos) && k <= |infos|
    requires 0 < k ==> leader.points[lo + k - 1] <= length
    requires k < |infos| ==> leader.points[lo + k] > length
    ensures forall f | f in infos && f.point.index <= length :: k > 0 && f.point.index <= leader.points[lo + k - 1]
    ensures 0 < k ==> infos[k - 1].point.index == leader.points[lo + k - 1] && infos[k - 1] in infos
  {
    forall f | f in infos && f.point.index <= length
      ensures k > 0 && f.point.index <= leader.points[lo + k - 1]
    {
      var j :| 0 <= j < |infos| && infos[j] == f;
      assert InfoAt(leader, lo, last, infos, j);
    }
    if 0 < k {
      assert InfoAt(leader, lo, last, infos, k - 1);
    }
  }

  /** A list continues behind what the follower has finalized. */
  lemma AheadOf(log: Log, leader: Log, request: Request, lo: nat, k: nat, infos: seq<SignatureData>)
    requires log.Valid() && leader.Valid() && Asks(log, leader, request)
    requires ContinuesAt(leader, request.finalizedIndex, lo) && lo + |infos| <= |leader.points| && k <= |infos|
    ensures 0 < k ==> leader.points[lo + k - 1] > log.LastFinalized()
  {
  }

  /** For a follower that can catch up: exactly if the last finalization in the answer lies beyond what it has locked
      or will lock, or if there is none and the certificate was missing before. */
  lemma CatchingUpLosesLock(net: Network, log: Log, leader: Log, ends: seq<int>, limitKb: real, request: Request,
                            offered: seq<Body>, lo: nat, r: Response)
    requires net.Valid() && log.Valid() && Trails(log, leader)
    requires leader.Valid() && leader.Certified(net) && LocksKnown(net, leader)
    requires Asks(log, leader, request) && Answers(leader, ends, limitKb, request, offered, lo, Some(r))
    requires CanCatchUp(log, leader, limitKb)
    ensures LockLost(Synced(net, log, r).1) <==>
              if r.finalized != [] then r.finalized[|r.finalized| - 1].point.index > LockedThen(net, log, r)
              else LockLost(log) && !LockTaken(net, log, r)
  {
    var k := AnswerStages(net, log, leader, ends, limitKb, request, offered, lo, r);
    EnoughExactly(log, leader, ends, limitKb, offered);
    AllListed(log, leader, request, offered, lo, k, r.finalized);
  }

  /** With enough offered, all that is listed is there. */
  lemma AllListed(log: Log, leader: Log, request: Request, offered: seq<Body>, lo: nat, k: nat,
                  infos: seq<SignatureData>)
    requires log.Valid() && leader.Valid() && Asks(log, leader, request) && Enough(log, leader, offered)
    requires ContinuesAt(leader, request.finalizedIndex, lo) && k <= |infos|
    requires Collected(leader, lo, LastOffered(request.sequencedIndex, offered), infos)
    requires k < |infos| ==> leader.points[lo + k] > |log.entries| + |offered|
    ensures k == |infos|
    ensures infos != [] ==> infos[|infos| - 1].point.index == leader.points[lo + |infos| - 1] > log.LastFinalized()
  {
    AheadOf(log, leader, request, lo, |infos|, infos);
    if infos != [] {
      ReachesLast(log, leader, request, offered, lo, infos);
      assert InfoAt(leader, lo, LastOffered(request.sequencedIndex, offered), infos, |infos| - 1);
    }
  }

  lemma AnswerWellStated(leader: Log, ends: seq<int>, limitKb: real, request: Request, offered: seq<Body>, lo: nat,
                         response: Response)
    requires leader.Valid() && Answers(leader, ends, limitKb, request, offered, lo, Some(response))
    ensures WellStated(response)
  {
    forall j | 0 <= j < |response.finalized|
      ensures response.finalized[j].point.state == Locked
    {
      assert InfoAt(leader, lo, LastOffered(request.sequencedIndex, offered), response.finalized, j);
    }
  }

  /** One round at the sequencer, whatever is asked or collected. */
  ghost predicate Serves(net: Network, s: Served, t: Served)
    requires net.Valid()
  {
    || (exists request :: PutStep(s, t, request))
    || (exists locking, finalizing :: SyncStep(net, s, t, locking, finalizing))
  }

  lemma StuckStep(net: Network, s: Served, t: Served)
    requires net.Valid() && LockLost(s.log) && s.nodes.Keys !! net.Ids() && Serves(net, s, t)
    ensures t.nodes == s.nodes && LockLost(t.log)
    ensures t.log.points == s.log.points && t.log.locked == s.log.locked
  {
    if request :| PutStep(s, t, request) {
      AppendLost(s.log, request.bodies);
    }
  }

  /** A sequencer whose log lost the lock before any attesting node reported never locks or finalizes again:
      it answers nobody, so nothing is reported, so there is nothing to collect certificates for. */
  lemma {:induction false} StuckForever(net: Network, run: seq<Served>, k: nat)
    requires net.Valid() && k < |run| && (forall n | 0 <= n < |run| - 1 :: Serves(net, run[n], run[n + 1]))
    requires LockLost(run[0].log) && run[0].nodes.Keys !! net.Ids()
    ensures run[k].nodes == run[0].nodes && LockLost(run[k].log)
    ensures run[k].log.points == run[0].log.points && run[k].log.locked == run[0].log.locked
  {
    if k > 0 {
      StuckForever(net, run, k - 1);
      assert Serves(net, run[k - 1], run[k - 1 + 1]);
      StuckStep(net, run[k - 1], run[k]);
    }
  }
}
