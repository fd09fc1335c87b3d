// A follower that asks again and again (the loop in send_batches, node/tasks.py): when it has caught up with
// its sequencer, and the one kind of follower that never does.

module RepeatedAnswers {
  import opened Batches
  import opened Certificates
  import opened ReplicatedLog
  import opened Agreement
  import opened TieredReads
  import opened Sequencers
  import opened Followers
  import opened CatchUp
  import opened LostLocks

  // ---- Asking until caught up ----

  /** A follower asks, and applies the answer.  It may also drop entries from memory. */
  ghost predicate Round(net: Network, leader: Log, ends: seq<int>, limitKb: real, log: Log, t: Log)
    requires net.Valid() && leader.Valid()
  {
    t.Ordered() && exists request, offered, lo, response ::
      RoundBy(net, leader, ends, limitKb, log, t, request, offered, lo, response)
  }

  ghost predicate RoundBy(net: Network, leader: Log, ends: seq<int>, limitKb: real, log: Log, t: Log, request: Request,
                          offered: seq<Body>, lo: nat, response: Response)
    requires net.Valid() && leader.Valid()
  {
    && request.sequencedIndex == |log.entries| && request.finalizedIndex == log.LastFinalized()
    && Answers(leader, ends, limitKb, request, offered, lo, Some(response))
    && SameLog(t, Synced(net, log, response).1)
  }

  /** A follower whose log is a part of the leader's, and whose last sync point the leader has in memory. */
  ghost predicate Behind(log: Log, leader: Log) {
    && log.Valid() && Trails(log, leader)
    && (log.points != [] ==> leader.InMemory(log.LastFinalized()) && log.LastFinalized() in leader.points)
  }

  ghost predicate AllFit(leader: Log, limitKb: real) {
    limitKb > 0.0 && forall i | 1 <= i <= |leader.entries| :: SizeKb(leader.At(i).body) <= limitKb
  }

  /** One round: the follower stays behind the leader, gets at least one batch if any is left, and the test that
      ends the loop holds exactly if both have finalized the same. */
  lemma RoundProgress(net: Network, leader: Log, ends: seq<int>, limitKb: real, log: Log, t: Log)
    requires net.Valid() && leader.Valid() && leader.Certified(net) && LocksKnown(net, leader)
    requires Behind(log, leader) && AllFit(leader, limitKb) && Round(net, leader, ends, limitKb, log, t)
    ensures Behind(t, leader)
    ensures |t.entries| >= |log.entries| && (|log.entries| < |leader.entries| ==> |t.entries| > |log.entries|)
    ensures leader.LastFinalized() <= |t.entries| <==> FinalizedBodies(t) == FinalizedBodies(leader)
  {
    var request, offered, lo, r :| RoundBy(net, leader, ends, limitKb, log, t, request, offered, lo, r);
    var final := Synced(net, log, r).1;
    RoundEnds(net, leader, ends, limitKb, log, request, offered, lo, r, final);
    SameBodies(t, final);
    assert |t.entries| == |log.entries| + |offered|;
    if |log.entries| < |leader.entries| {
      NextIsOffered(log, leader, ends, limitKb, offered);
    }
    assert leader.LastFinalized() == |FinalizedBodies(leader)|;
  }

  lemma RoundEnds(net: Network, leader: Log, ends: seq<int>, limitKb: real, log: Log, request: Request,
                  offered: seq<Body>, lo: nat, r: Response, final: Log)
    requires net.Valid() && leader.Valid() && leader.Certified(net) && LocksKnown(net, leader)
    requires Behind(log, leader) && AllFit(leader, limitKb) && final == Synced(net, log, r).1
    requires Asks(log, leader, request) && Answers(leader, ends, limitKb, request, offered, lo, Some(r))
    ensures Behind(final, leader) && |final.entries| == |log.entries| + |offered|
    ensures leader.LastFinalized() <= |log.entries| + |offered| ==> FinalizedBodies(final) == FinalizedBodies(leader)
  {
    AnswerCatchesUp(net, log, leader, ends, limitKb, request, offered, lo, r);
    SyncedBodies(net, log, r);
    assert |Bodies(final.entries)| == |log.entries| + |offered|;
    LastIsKnown(log, leader, request, offered, lo, r, final);
    if leader.LastFinalized() <= |log.entries| + |offered| {
      FullyCaughtUp(net, log, leader, ends, limitKb, request, offered, lo, r);
    }
  }

  lemma SameBodies(t: Log, final: Log)
    requires SameLog(t, final) && t.Ordered() && final.Valid()
    ensures t.Valid() && FinalizedBodies(t) == FinalizedBodies(final) && |FinalizedBodies(t)| == t.LastFinalized()
  {
    assert forall i | 1 <= i <= |t.entries| :: t.At(i) == final.At(i);
    LinksKept(final, t);
  }

  /** The last sync point of an answer is one the leader has in memory. */
  lemma LastIsKnown(log: Log, leader: Log, request: Request, offered: seq<Body>, lo: nat, r: Response, final: Log)
    requires leader.Valid() && Behind(log, leader) && request.finalizedIndex == log.LastFinalized()
    requires ContinuesAt(leader, request.finalizedIndex, lo)
    requires !FirstGone(leader, request.finalizedIndex, LastOffered(request.sequencedIndex, offered))
    requires Collected(leader, lo, LastOffered(request.sequencedIndex, offered), r.finalized)
    requires final.Valid() && final.LastFinalized() ==
      if r.finalized == [] then log.LastFinalized() else r.finalized[|r.finalized| - 1].point.index
    ensures final.points != [] ==> leader.InMemory(final.LastFinalized()) && final.LastFinalized() in leader.points
  {
    var n, last := |r.finalized|, LastOffered(request.sequencedIndex, offered);
    if r.finalized != [] {
      assert InfoAt(leader, lo, last, r.finalized, 0) && InfoAt(leader, lo, last, r.finalized, n - 1);
      NextInMemory(leader, request.finalizedIndex, lo);
      assert leader.points[lo] <= leader.points[lo + n - 1];
    }
  }

  ghost predicate RoundAt(net: Network, leader: Log, ends: seq<int>, limitKb: real, run: seq<Log>, i: nat)
    requires net.Valid() && leader.Valid() && i < |run| - 1
  {
    Round(net, leader, ends, limitKb, run[i], run[i + 1])
  }

  /** Asking again and again, a follower holds at least one more batch after every round as long as any is left. */
  lemma {:induction false} RoundsProgress(net: Network, leader: Log, ends: seq<int>, limitKb: real, run: seq<Log>,
                                          k: nat)
    requires net.Valid() && leader.Valid() && leader.Certified(net) && LocksKnown(net, leader)
    requires k < |run| && Behind(run[0], leader) && AllFit(leader, limitKb)
    requires forall i :: 0 <= i < |run| - 1 ==> RoundAt(net, leader, ends, limitKb, run, i)
    ensures Behind(run[k], leader) && |run[k].entries| >= Min(|leader.entries|, |run[0].entries| + k)
  {
    if k > 0 {
      RoundsProgress(net, leader, ends, limitKb, run, k - 1);
      assert RoundAt(net, leader, ends, limitKb, run, k - 1);
      RoundProgress(net, leader, ends, limitKb, run[k - 1], run[k]);
    }
  }

  /** So once every batch fits the limit, it has finalized what the leader has finalized after as many rounds as
      batches are missing up to the leader's last sync point, and after one round if none is. */
  lemma RoundsCatchUp(net: Network, leader: Log, ends: seq<int>, limitKb: real, run: seq<Log>, k: nat)
    requires net.Valid() && leader.Valid() && leader.Certified(net) && LocksKnown(net, leader)
    requires 0 < k < |run| && Behind(run[0], leader) && AllFit(leader, limitKb)
    requires forall i :: 0 <= i < |run| - 1 ==> RoundAt(net, leader, ends, limitKb, run, i)
    requires k >= leader.LastFinalized() - |run[0].entries|
    ensures run[k].Ordered() && FinalizedBodies(run[k]) == FinalizedBodies(leader)
  {
    RoundsProgress(net, leader, ends, limitKb, run, k - 1);
    RoundsProgress(net, leader, ends, limitKb, run, k);
    assert RoundAt(net, leader, ends, limitKb, run, k - 1);
    RoundProgress(net, leader, ends, limitKb, run[k - 1], run[k]);
  }

  // ---- Asking too late ----

  /** An answer to a node that has finalized nothing holds no finalization once the first sync point has left memory. */
  lemma NothingForNewcomers(leader: Log, ends: seq<int>, limitKb: real, request: Request, offered: seq<Body>, lo: nat,
                            r: Response)
    requires leader.Valid() && leader.points != [] && leader.points[0] <= leader.base && request.finalizedIndex == 0
    requires Answers(leader, ends, limitKb, request, offered, lo, Some(r))
    ensures r.finalized == []
  {
    FirstIsWithin(leader, lo, LastOffered(request.sequencedIndex, offered), r.finalized);
  }

  lemma FirstIsWithin(log: Log, lo: nat, last: Option<int>, infos: seq<SignatureData>)
    requires log.Linked() && lo <= |log.points| && Collected(log, lo, last, infos)
    ensures infos != [] ==> Within(log.points[lo], last)
  {
    assert infos != [] ==> InfoAt(log, lo, last, infos, 0);
  }

  lemma NewcomerStays(net: Network, log: Log, r: Response)
    requires net.Valid() && log.points == [] && r.finalized == [] && WellStated(r)
    ensures Synced(net, log, r).1.points == []
  {
  }

  /** So over any run of the leader, a follower that has finalized nothing when this is so never finalizes anything,
      however often it asks and at whatever later steps it is answered. */
  lemma {:induction false} NewcomerNeverFinalizes(net: Network, run: seq<Log>, actions: seq<Action>, j: nat,
                                                  logs: seq<Log>, steps: seq<nat>, ends: seq<seq<int>>, limitKb: real,
                                                  k: nat)
    requires net.Valid() && IsRun(net, run, actions) && j < |run|
    requires run[j].points != [] && run[j].points[0] <= run[j].base
    requires |logs| == |steps| + 1 == |ends| + 1 && k < |logs| && logs[0].points == []
    requires forall i | 0 <= i < |steps| :: j <= steps[i] < |run|
    requires forall i | 0 <= i < |steps| ::
      run[steps[i]].Valid() ==> Round(net, run[steps[i]], ends[i], limitKb, logs[i], logs[i + 1])
    ensures logs[k].points == []
  {
    if k > 0 {
      NewcomerNeverFinalizes(net, run, actions, j, logs, steps, ends, limitKb, k - 1);
      LockedPrefixDurable(net, run, actions, j, steps[k - 1]);
      NewcomerRound(net, run[steps[k - 1]], ends[k - 1], limitKb, logs[k - 1], logs[k - 1 + 1]);
    }
  }

  lemma NewcomerRound(net: Network, leader: Log, ends: seq<int>, limitKb: real, log: Log, t: Log)
    requires net.Valid() && leader.Valid() && leader.points != [] && leader.points[0] <= leader.base
    requires log.points == [] && Round(net, leader, ends, limitKb, log, t)
    ensures t.points == []
  {
    var request, offered, lo, r :| RoundBy(net, leader, ends, limitKb, log, t, request, offered, lo, r);
    NothingForNewcomers(leader, ends, limitKb, request, offered, lo, r);
    AnswerWellStated(leader, ends, limitKb, request, offered, lo, r);
    NewcomerStays(net, log, r);
  }
}
