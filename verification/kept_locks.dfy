// The way of a lock certificate: accepted by the sequencer, kept in its log, sent with every answer
// (sequencer/routers.py:77-94), and accepted by a follower, which could send it on.

module KeptLocks {
  import opened Batches
  import opened Certificates
  import opened ReplicatedLog
  import opened Agreement
  import opened TieredReads
  import opened Sequencers
  import opened Followers
  import opened CatchUp
  import opened LostLocks

  /** This is the lock that answers from the log carry. */
  ghost predicate HandsOut(log: Log, data: SignatureData) {
    log.Ordered() && !LockLost(log) && LockInfo(log) == Some(data)
  }

  /** A lock that is accepted is what answers carry from then on, unchanged.  Nodes sign locks with timestamp 0 only. */
  lemma AcceptedIsHandedOut(net: Network, log: Log, data: SignatureData)
    requires net.Valid() && log.Valid() && Promote(net, log, data).0 == Promotes
    requires data.point.state == Sequenced && data.point.timestamp == 0
    ensures HandsOut(Promote(net, log, data).1, data) && Verify(net, data) == Accepts
  {
    PromoteValid(net, log, data);
  }

  /** So in every run of the system, as long as the nodes that sign what they like do not hold the threshold, every
      lock that any log accepts has timestamp 0, and is handed out as it was accepted. */
  lemma EveryLockIsHandedOut(net: Network, run: seq<System>, events: seq<Event>, faulty: set<NodeId>, k: nat, n: NodeId,
                             data: SignatureData)
    requires net.Valid() && IsHistory(net, run, events) && OnlyBy(events, faulty)
    requires forall q | IsQuorum(net, q) :: !(q <= faulty)
    requires k < |events| && events[k] == Local(n, Delivering(data)) && data.point.state == Sequenced
    requires n in run[k].logs && Promote(net, run[k].logs[n], data).0 == Promotes
    ensures data.point.timestamp == 0
    ensures n in run[k + 1].logs && HandsOut(run[k + 1].logs[n], data)
  {
    var s := run[k];
    HistoryInv(net, run, events, k);
    UncheckedByFaulty(net, run, events, faulty, k);
    AcceptedStake(net, data);
    var id :| id in Signers(net, data.cert.nonsigners) && id !in faulty;
    assert Agreement.Follows(net, s, events[k], run[k + 1]);
    var signature := Signature(id, data.point);
    assert signature in data.cert.signature;
    assert SignatureOk(s, signature);
    assert forall m | m in s.logs :: NodeOk(net, s, m) && s.logs[m].Ordered();
    AcceptedIsHandedOut(net, s.logs[n], data);
  }

  /** It stays so until there is another lock, or a finalization beyond it or on another parent. */
  ghost predicate Spares(net: Network, log: Log, action: Action, data: SignatureData)
    requires net.Valid()
  {
    action.Delivering? && Promote(net, log, action.data).0 == Promotes ==>
      && action.data.point.state == Locked && action.data.point.index <= data.point.index
      && (action.data.point.index == data.point.index ==> action.data.point.parent == data.point.parent)
  }

  lemma SparedIsHandedOut(net: Network, log: Log, action: Action, data: SignatureData)
    requires net.Valid() && log.Valid() && HandsOut(log, data) && Spares(net, log, action, data)
    ensures HandsOut(Apply(net, log, action), data)
  {
    ApplyValid(net, log, action);
    var r := Apply(net, log, action);
    assert data.point.index == log.locked > 0;
    assert r.locked == log.locked;
    if action.Delivering? && Promote(net, log, action.data).0 == Promotes {
      AboveFinalizedIsPlain(log);
    } else {
      assert r.At(r.locked) == log.At(log.locked);
    }
  }

  /** So over any run the lock accepted at one step is handed out at every later step until then. */
  lemma {:induction false} RunHandsOut(net: Network, run: seq<Log>, actions: seq<Action>, j: nat, k: nat,
                                       data: SignatureData)
    requires net.Valid() && IsRun(net, run, actions) && j < k < |run| && actions[j] == Delivering(data)
    requires run[j].Valid() && Promote(net, run[j], data).0 == Promotes
    requires data.point.state == Sequenced && data.point.timestamp == 0
    requires forall i | j < i < k :: Spares(net, run[i], actions[i], data)
    ensures HandsOut(run[k], data) && Verify(net, data) == Accepts
  {
    RunValid(net, run, actions, k - 1);
    assert run[k - 1 + 1] == Apply(net, run[k - 1], actions[k - 1]);
    AcceptedIsHandedOut(net, run[j], data);
    if j < k - 1 {
      RunHandsOut(net, run, actions, j, k - 1, data);
      SparedIsHandedOut(net, run[k - 1], actions[k - 1], data);
    }
  }

  /** A follower that has finalized as far as the lock's parent, has its batch by then and nothing else locked,
      takes the lock from an answer, and would hand it out itself. */
  lemma FollowerTakesLock(net: Network, log: Log, leader: Log, ends: seq<int>, limitKb: real, request: Request,
                          offered: seq<Body>, lo: nat, r: Response, data: SignatureData)
    requires net.Valid() && log.Valid() && Trails(log, leader)
    requires leader.Valid() && leader.Certified(net) && LocksKnown(net, leader)
    requires Asks(log, leader, request) && Answers(leader, ends, limitKb, request, offered, lo, Some(r))
    requires HandsOut(leader, data) && Verify(net, data) == Accepts
    requires log.locked == log.LastFinalized() && (log.LastFinalized() == 0 || log.LastFinalized() == data.point.parent)
    requires log.locked < data.point.index <= |log.entries| + |r.bodies|
    ensures r.lastLocked == Some(data)
    ensures LockedFirst(net, Append(log, r.bodies), r.lastLocked).0 == Promotes
    ensures HandsOut(LockedFirst(net, Append(log, r.bodies), r.lastLocked).1, data)
  {
    var lock := LockStage(net, log, leader, ends, limitKb, request, offered, lo, r);
    AppendValid(log, r.bodies);
    AcceptedIsHandedOut(net, Append(log, r.bodies), data);
  }
}
