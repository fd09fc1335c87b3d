// What it takes for a follower to sign (sign_sync_point, node/tasks.py), and what its consent is good for.

module Signing {
  import opened Batches
  import opened Certificates
  import opened ReplicatedLog
  import opened Agreement
  import opened Sequencers

  predicate Signs(log: Log, p: SyncPoint, now: real)
    requires log.Valid()
  {
    MaySignDefined(log);
    MaySign(log, p, now)
  }

  // ---- It signs what the sequencer proposes ----

  /** A follower that has finalized up to the same sync point signs the lock of a batch it has. */
  lemma SignsProposedLock(net: Network, id: NodeId, nodes: map<NodeId, NodeState>, last: int, leader: Log, log: Log,
                          p: SyncPoint, now: real)
    requires log.Valid() && ProposesLock(net, id, nodes, last, leader.LastFinalized(), p)
    requires log.LastFinalized() == leader.LastFinalized()
    requires log.InMemory(p.index) && log.At(p.index).chainingHash == p.chainingHash
    ensures Signs(log, p, now)
  {
  }

  /** It signs the finalization of a batch it has locked, as long as its clock is less than ten seconds off the proposal
      and the proposal is not older than its last finalization. */
  lemma SignsProposedFinalization(net: Network, id: NodeId, nodes: map<NodeId, NodeState>, last: int, leader: Log,
                                  log: Log, time: int, p: SyncPoint, now: real)
    requires log.Valid() && ProposesFinalization(net, id, nodes, last, leader.LastFinalized(), time, p)
    requires log.LastFinalized() == leader.LastFinalized()
    requires p.index <= log.locked && log.InMemory(p.index) && log.At(p.index).chainingHash == p.chainingHash
    requires -10.0 < now - time as real < 10.0
    requires log.LastFinalized() != 0 && log.At(log.LastFinalized()).timestamp.Some? ==>
               log.At(log.LastFinalized()).timestamp.value <= time
    ensures Signs(log, p, now)
  {
    MaySignDefined(log);
  }

  // ---- It would accept what it signs ----

  /** A certificate for something new that a node signs is one that its own log accepts. */
  lemma SignedIsAccepted(net: Network, log: Log, data: SignatureData, now: real)
    requires net.Valid() && log.Valid() && Signs(log, data.point, now) && Verify(net, data) == Accepts
    requires data.point.state == Locked ==> data.point.index > log.LastFinalized()
    requires data.point.state == Sequenced ==> data.point.index > log.locked == log.LastFinalized()
    requires data.point.state == Sequenced || data.point.state == Locked
    ensures Promote(net, log, data).0 == Promotes
  {
  }

  /** And what it finalizes then has been locked before. */
  lemma SignedIsLocked(net: Network, log: Log, data: SignatureData, now: real)
    requires net.Valid() && log.Valid() && Signs(log, data.point, now) && data.point.state == Locked
    ensures Promote(net, log, data).1.locked == log.locked
  {
  }

  /** Two nodes that sign the same finalization have clocks less than twenty seconds apart. */
  lemma SignersClocks(a: Log, b: Log, p: SyncPoint, here: real, there: real)
    requires a.Valid() && b.Valid() && p.state == Locked && Signs(a, p, here) && Signs(b, p, there)
    ensures -20.0 < here - there < 20.0
  {
  }

  // ---- Time does not go back ----

  /** A sync point names the one before as its parent and is not older. */
  ghost predicate InOrder(log: Log, k: nat)
    requires log.PointsOrdered() && 0 < k < |log.points|
  {
    var before, batch := log.At(log.points[k - 1]), log.At(log.points[k]);
    && batch.parent == Some(log.points[k - 1])
    && before.timestamp.Some? && batch.timestamp.Some? && before.timestamp.value <= batch.timestamp.value
  }

  ghost predicate TimesOrdered(log: Log)
    requires log.PointsOrdered()
  {
    forall k :: 0 < k < |log.points| ==> InOrder(log, k)
  }

  /** A finalization that the log's own node signs keeps the order. */
  lemma SignedKeepsOrder(net: Network, log: Log, data: SignatureData, now: real)
    requires net.Valid() && log.Valid() && TimesOrdered(log)
    requires data.point.state == Locked && Signs(log, data.point, now)
    ensures Promote(net, log, data).1.Valid() && TimesOrdered(Promote(net, log, data).1)
  {
    PromoteValid(net, log, data);
    var r, n := Promote(net, log, data).1, |log.points|;
    if Promote(net, log, data).0 == Promotes {
      assert r.points == log.points + [data.point.index];
      assert forall i | 1 <= i <= |log.entries| && i != data.point.index ::
          r.At(i).timestamp == log.At(i).timestamp && r.At(i).parent == log.At(i).parent;
      assert log.LastFinalized() < data.point.index;
      forall k | 0 < k < |r.points|
        ensures InOrder(r, k)
      {
        if k < n {
          assert InOrder(log, k) && r.points[k] == log.points[k] && r.points[k - 1] == log.points[k - 1];
        } else {
          assert log.PointLinked(n - 1) && r.PointLinked(n);
        }
      }
    }
  }

  /** Whatever else happens to a log keeps it, too. */
  lemma OthersKeepOrder(net: Network, log: Log, action: Action)
    requires net.Valid() && log.Valid() && TimesOrdered(log)
    requires action.Delivering? ==> action.data.point.state != Locked
    ensures Apply(net, log, action).Valid() && TimesOrdered(Apply(net, log, action))
  {
    ApplyValid(net, log, action);
    var r := Apply(net, log, action);
    assert r.points == log.points;
    forall k | 0 < k < |r.points|
      ensures InOrder(r, k)
    {
      assert InOrder(log, k);
      assert r.points[k] <= log.LastFinalized() && r.points[k - 1] <= log.LastFinalized();
      assert r.At(r.points[k]) == log.At(r.points[k]) && r.At(r.points[k - 1]) == log.At(r.points[k - 1]);
    }
  }

  /** The node signed every finalization it was given, at some time of its clock. */
  ghost predicate SignedFirst(run: seq<Log>, actions: seq<Action>, i: nat)
    requires i < |actions| < |run|
  {
    run[i].Valid() && actions[i].Delivering? && actions[i].data.point.state == Locked ==>
      exists now :: Signs(run[i], actions[i].data.point, now)
  }

  /** So over any run of a node that signs what it finalizes, the times of its sync points never go back. */
  lemma {:induction false} RunKeepsOrder(net: Network, run: seq<Log>, actions: seq<Action>, k: nat)
    requires net.Valid() && IsRun(net, run, actions) && k < |run|
    requires forall i :: 0 <= i < k ==> SignedFirst(run, actions, i)
    ensures run[k].Valid() && TimesOrdered(run[k])
  {
    RunValid(net, run, actions, k);
    if k > 0 {
      var i := k - 1;
      RunKeepsOrder(net, run, actions, i);
      assert run[i + 1] == Apply(net, run[i], actions[i]) && SignedFirst(run, actions, i);
      if actions[i].Delivering? && actions[i].data.point.state == Locked {
        var now :| Signs(run[i], actions[i].data.point, now);
        SignedKeepsOrder(net, run[i], actions[i].data, now);
      } else {
        OthersKeepOrder(net, run[i], actions[i]);
      }
    }
  }
}
