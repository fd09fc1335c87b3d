// What one answer of the sequencer does for a follower that is behind: the follower's log stays a
// prefix of the sequencer's, and its finalized index moves to the last one in the answer.

module CatchUp {
  import opened Batches
  import opened Certificates
  import opened ReplicatedLog
  import opened Agreement
  import opened TieredReads
  import opened Sequencers
  import opened Followers

  // ---- Lock certificates that were accepted can be verified again ----

  ghost predicate LocksKnown(net: Network, log: Log) {
    forall i :: 1 <= i <= |log.entries| ==> LockKnown(net, log, i)
  }

  ghost predicate LockKnown(net: Network, log: Log, i: int)
    requires 1 <= i <= |log.entries|
  {
    log.At(i).lockedCert.Some? ==> forall id | id in log.At(i).lockedCert.value.nonsigners :: id in net.Ids()
  }

  lemma {:induction false} AppendLocksKnown(net: Network, log: Log, bodies: seq<Body>)
    requires LocksKnown(net, log)
    ensures LocksKnown(net, Append(log, bodies))
  {
    if bodies != [] {
      var most, r := Append(log, bodies[..|bodies| - 1]), Append(log, bodies);
      AppendLocksKnown(net, log, bodies[..|bodies| - 1]);
      forall i | 1 <= i <= |r.entries|
        ensures LockKnown(net, r, i)
      {
        assert i <= |most.entries| ==> r.At(i) == most.At(i) && LockKnown(net, most, i);
      }
    }
  }

  /** Every operation keeps it. */
  lemma ApplyLocksKnown(net: Network, log: Log, action: Action)
    requires net.Valid() && log.Valid() && LocksKnown(net, log)
    ensures LocksKnown(net, Apply(net, log, action))
  {
    if action.Appending? {
      AppendLocksKnown(net, log, action.bodies);
    } else {
      var r := Apply(net, log, action);
      forall i | 1 <= i <= |r.entries|
        ensures LockKnown(net, r, i)
      {
        assert LockKnown(net, log, i);
      }
    }
  }

  lemma LockInfoNeverRaises(net: Network, log: Log)
    requires net.Valid() && log.Ordered() && !LockLost(log) && LocksKnown(net, log)
    ensures LockInfo(log).Some? ==> Verify(net, LockInfo(log).value) != Raises
  {
    if log.locked > 0 {
      assert LockKnown(net, log, log.locked);
    }
  }

  // ---- Finalization, certificate by certificate ----

  /** The log holds the first bodies of the other one. */
  ghost predicate Trails(log: Log, leader: Log) {
    Bodies(log.entries) <= Bodies(leader.entries)
  }

  lemma SameHash(log: Log, leader: Log, i: int)
    requires log.Valid() && leader.Valid() && Trails(log, leader)
    requires 1 <= i <= |log.entries|
    ensures i <= |leader.entries| && log.At(i).chainingHash == leader.At(i).chainingHash
  {
    assert |log.entries| == |Bodies(log.entries)| <= |Bodies(leader.entries)| == |leader.entries|;
    HashAt(log, i);
    HashAt(leader, i);
    BodiesSlice(log.entries, 0, i);
    BodiesSlice(leader.entries, 0, i);
    assert log.entries[0..i] == log.entries[..i] && leader.entries[0..i] == leader.entries[..i];
    assert Bodies(log.entries)[0..i] == Bodies(leader.entries)[0..i];
  }

  /** The leader's sync point k is accepted by a log that has finalized up to the one before. */
  lemma NextAccepted(net: Network, log: Log, leader: Log, k: nat)
    requires net.Valid() && log.Valid() && leader.Valid() && leader.Certified(net) && Trails(log, leader)
    requires k < |leader.points| && leader.PointLinked(k)
    requires leader.points[k] <= |log.entries|
    requires log.points == [] || (k > 0 && leader.points[k - 1] == log.LastFinalized())
    ensures var data := leader.PointData(leader.points[k]);
      && Promote(net, log, data).0 == Promotes
      && Promote(net, log, data).1.Valid()
      && Promote(net, log, data).1.points == log.points + [leader.points[k]]
      && Promote(net, log, data).1.LastFinalized() == leader.points[k]
      && Bodies(Promote(net, log, data).1.entries) == Bodies(log.entries)
      && |Promote(net, log, data).1.entries| == |log.entries|
  {
    var i := leader.points[k];
    var data := leader.PointData(i);
    assert leader.PointCertified(net, i);
    SameHash(log, leader, i);
    PromoteBodies(net, log, data);
    PromoteValid(net, log, data);
    assert log.LastFinalized() < i;
  }

  /** The certificate at a position of the list is accepted if those before it were and its batch is there. */
  lemma ListedAccepted(net: Network, log: Log, leader: Log, lo: nat, last: Option<int>, infos: seq<SignatureData>,
                       j: nat) returns (next: Log)
    requires net.Valid() && log.Valid() && leader.Valid() && leader.Certified(net) && Trails(log, leader)
    requires lo <= |leader.points| && Collected(leader, lo, last, infos) && j < |infos|
    requires leader.points[lo + j] <= |log.entries|
    requires log.points == [] || (lo + j > 0 && leader.points[lo + j - 1] == log.LastFinalized())
    ensures FinalizeFrom(net, log, infos, j) == FinalizeFrom(net, next, infos, j + 1)
    ensures next.Valid() && next.points == log.points + [leader.points[lo + j]] &&
            next.LastFinalized() == leader.points[lo + j]
    ensures Bodies(next.entries) == Bodies(log.entries) && |next.entries| == |log.entries|
  {
    assert leader.PointLinked(lo + j) && InfoAt(leader, lo, last, infos, j);
    NextAccepted(net, log, leader, lo + j);
    next := Promote(net, log, infos[j]).1;
  }

  /** The certificate of a batch that is not there is refused, and ends the list. */
  lemma ListedRefused(net: Network, log: Log, leader: Log, lo: nat, last: Option<int>, infos: seq<SignatureData>,
                      j: nat)
    requires net.Valid() && log.Valid() && leader.Valid() && leader.Certified(net)
    requires lo <= |leader.points| && Collected(leader, lo, last, infos) && j < |infos|
    requires leader.points[lo + j] > |log.entries|
    ensures FinalizeFrom(net, log, infos, j) == (Declines, log)
  {
    assert leader.PointLinked(lo + j) && InfoAt(leader, lo, last, infos, j);
    assert leader.PointCertified(net, leader.points[lo + j]);
  }

  /** So the certificates up to a position are accepted if the log starts where the list does and has their batches. */
  lemma {:induction false} AcceptedUpTo(net: Network, log: Log, leader: Log, lo: nat, last: Option<int>,
                                        infos: seq<SignatureData>, j: nat, k: nat) returns (r: Log)
    requires net.Valid() && log.Valid() && leader.Valid() && leader.Certified(net) && Trails(log, leader)
    requires lo <= |leader.points| && Collected(leader, lo, last, infos) && j <= k <= |infos|
    requires j < k ==> leader.points[lo + k - 1] <= |log.entries|
    requires log.points == [] || (lo + j > 0 && leader.points[lo + j - 1] == log.LastFinalized())
    ensures FinalizeFrom(net, log, infos, j) == FinalizeFrom(net, r, infos, k)
    ensures r.Valid() && Bodies(r.entries) == Bodies(log.entries) && |r.entries| == |log.entries|
    ensures r.LastFinalized() == if j < k then leader.points[lo + k - 1] else log.LastFinalized()
    ensures j == k ==> r == log
    decreases k - j
  {
    r := log;
    if j < k {
      assert leader.points[lo + j] <= leader.points[lo + k - 1];
      var next := ListedAccepted(net, log, leader, lo, last, infos, j);
      r := AcceptedUpTo(net, next, leader, lo, last, infos, j + 1, k);
    }
  }

  /** How many of the sync points from a position on lie within a log. */
  lemma {:induction false} CountWithin(points: seq<int>, lo: nat, n: nat, length: nat) returns (k: nat)
    requires lo + n <= |points| && forall i, j :: 0 <= i < j < |points| ==> points[i] < points[j]
    ensures k <= n && (0 < k ==> points[lo + k - 1] <= length) && (k < n ==> points[lo + k] > length)
  {
    if n == 0 || points[lo + n - 1] <= length {
      k := n;
    } else {
      k := CountWithin(points, lo, n - 1, length);
    }
  }

  /** Of the whole list, exactly the certificates whose batches are there are accepted. */
  lemma AcceptedPart(net: Network, log: Log, leader: Log, lo: nat, last: Option<int>, infos: seq<SignatureData>)
    returns (k: nat, r: Log)
    requires net.Valid() && log.Valid() && leader.Valid() && leader.Certified(net) && Trails(log, leader)
    requires lo <= |leader.points| && Collected(leader, lo, last, infos)
    requires log.points == [] || (lo > 0 && leader.points[lo - 1] == log.LastFinalized())
    ensures FinalizeFrom(net, log, infos, 0) == (if k == |infos| then Promotes else Declines, r)
    ensures r.Valid() && Bodies(r.entries) == Bodies(log.entries)
    ensures k <= |infos| && (0 < k ==> leader.points[lo + k - 1] <= |log.entries|)
    ensures k < |infos| ==> leader.points[lo + k] > |log.entries|
    ensures r.LastFinalized() == if 0 < k then leader.points[lo + k - 1] else log.LastFinalized()
  {
    k := CountWithin(leader.points, lo, |infos|, |log.entries|);
    r := AcceptedUpTo(net, log, leader, lo, last, infos, 0, k);
    if k < |infos| {
      ListedRefused(net, r, leader, lo, last, infos, k);
    }
  }

  /** All of them, if the log has all the batches. */
  lemma AllAccepted(net: Network, log: Log, leader: Log, lo: nat, last: Option<int>, infos: seq<SignatureData>)
    returns (r: Log)
    requires net.Valid() && log.Valid() && leader.Valid() && leader.Certified(net) && Trails(log, leader)
    requires lo <= |leader.points| && Collected(leader, lo, last, infos)
    requires infos != [] ==> leader.points[lo + |infos| - 1] <= |log.entries|
    requires log.points == [] || (lo > 0 && leader.points[lo - 1] == log.LastFinalized())
    ensures FinalizeFrom(net, log, infos, 0) == (Promotes, r)
    ensures r.Valid() && Bodies(r.entries) == Bodies(log.entries)
    ensures r.LastFinalized() == if infos != [] then leader.points[lo + |infos| - 1] else log.LastFinalized()
  {
    r := AcceptedUpTo(net, log, leader, lo, last, infos, 0, |infos|);
  }

  // ---- One answer ----

  /** The follower asks for what follows its log; its last sync point is one of the leader's, still in memory. */
  ghost predicate Asks(log: Log, leader: Log, request: Request) {
    && request.sequencedIndex == |log.entries|
    && request.finalizedIndex == log.LastFinalized()
    && (log.points != [] ==> leader.InMemory(log.LastFinalized()) && log.LastFinalized() in leader.points)
  }

  /** The next batch fits the sequencer's size limit, or nothing is left to finalize behind the follower's log. */
  predicate CanCatchUp(log: Log, leader: Log, limitKb: real) {
    || leader.LastFinalized() <= |log.entries|
    || (limitKb > 0.0 && |log.entries| < |leader.entries| && SizeKb(leader.At(|log.entries| + 1).body) <= limitKb)
  }

  /** Something is offered, or nothing is left to finalize behind the follower's log. */
  ghost predicate Enough(log: Log, leader: Log, offered: seq<Body>) {
    offered != [] || leader.LastFinalized() <= |log.entries|
  }

  lemma InsertedTrails(log: Log, leader: Log, ends: seq<int>, limitKb: real, offered: seq<Body>)
    requires log.Valid() && leader.Ordered() && Trails(log, leader) &&
             Offers(leader, ends, limitKb, |log.entries|, offered)
    ensures Append(log, offered).Valid() && Trails(Append(log, offered), leader)
  {
    AppendValid(log, offered);
    AppendBodies(log, offered);
    var n := |log.entries|;
    assert |Bodies(log.entries)| == n <= |Bodies(leader.entries)| == |leader.entries|;
    if n < |leader.entries| {
      BodiesSlice(leader.entries, n, |leader.entries|);
      assert Bodies(Wanted(leader, Sequenced, n)) == Bodies(leader.entries)[n..];
      assert Bodies(log.entries) + offered == Bodies(leader.entries)[..n + |offered|];
    } else {
      assert offered == [] && Bodies(log.entries) + offered == Bodies(log.entries);
    }
  }

  lemma LockedFirstKept(net: Network, log: Log, info: Option<SignatureData>)
    requires net.Valid() && log.Valid()
    ensures var r := LockedFirst(net, log, info).1;
      info.Some? && info.value.point.state == Sequenced ==>
        r.Valid() && r.points == log.points && Bodies(r.entries) == Bodies(log.entries) && |r.entries| == |log.entries|
  {
    if info.Some? {
      PromoteValid(net, log, info.value);
      PromoteBodies(net, log, info.value);
    }
  }

  /** The last sync point of an answer is within the follower's log once the bodies are inserted. */
  lemma ReachesLast(log: Log, leader: Log, request: Request, offered: seq<Body>, lo: nat, infos: seq<SignatureData>)
    requires leader.Valid() && lo <= |leader.points| && infos != []
    requires Asks(log, leader, request) && Enough(log, leader, offered)
    requires Collected(leader, lo, LastOffered(request.sequencedIndex, offered), infos)
    ensures leader.points[lo + |infos| - 1] <= |log.entries| + |offered|
  {
    assert InfoAt(leader, lo, LastOffered(request.sequencedIndex, offered), infos, |infos| - 1);
    assert leader.points[lo + |infos| - 1] <= leader.LastFinalized();
  }

  ghost predicate CaughtUp(log: Log, leader: Log, infos: seq<SignatureData>, outcome: Outcome, r: Log) {
    && outcome == Promotes
    && r.Valid() && Trails(r, leader)
    && r.LastFinalized() == if infos == [] then log.LastFinalized() else infos[|infos| - 1].point.index
  }

  lemma FinalizationsAccepted(net: Network, log: Log, locked: Log, leader: Log, request: Request,
                              offered: seq<Body>, lo: nat, infos: seq<SignatureData>)
    requires net.Valid() && locked.Valid() && Trails(locked, leader)
    requires leader.Valid() && leader.Certified(net)
    requires locked.points == log.points && |locked.entries| == |log.entries| + |offered|
    requires Asks(log, leader, request) && Enough(log, leader, offered) &&
             ContinuesAt(leader, request.finalizedIndex, lo)
    requires Collected(leader, lo, LastOffered(request.sequencedIndex, offered), infos)
    requires log.Ordered()
    ensures var (outcome, r) := FinalizeFrom(net, locked, infos, 0);
      CaughtUp(log, leader, infos, outcome, r)
  {
    var last := LastOffered(request.sequencedIndex, offered);
    if infos != [] {
      ReachesLast(log, leader, request, offered, lo, infos);
      assert InfoAt(leader, lo, last, infos, |infos| - 1);
    }
    var r := AllAccepted(net, locked, leader, lo, last, infos);
  }

  /** The first body comes back exactly if it fits. */
  lemma FirstFits(bodies: seq<Body>, limitKb: real, n: int)
    requires bodies != [] && IsLongestFit(bodies, limitKb, n)
    ensures n > 0 <==> SizeKb(bodies[0]) <= limitKb
  {
    assert KbTo(bodies, 1) == SizeKb(bodies[0]);
    if n > 0 {
      KbToMonotone(bodies, 1, n);
    }
  }

  /** So something is offered to a follower that is behind exactly if the next batch fits. */
  lemma NextIsOffered(log: Log, leader: Log, ends: seq<int>, limitKb: real, offered: seq<Body>)
    requires leader.Ordered() && Offers(leader, ends, limitKb, |log.entries|, offered)
    requires |log.entries| < |leader.entries|
    ensures offered != [] <==> limitKb > 0.0 && SizeKb(leader.At(|log.entries| + 1).body) <= limitKb
  {
    var n := |log.entries|;
    if limitKb > 0.0 {
      var bodies := Bodies(Wanted(leader, Sequenced, n));
      assert bodies[0] == leader.At(n + 1).body;
      var cut: Option<nat> :| IsCut(ends, leader.base, n, bodies, limitKb, cut) &&
          StopsAt(bodies, limitKb, cut, |offered|);
      FirstFits(if cut.Some? then bodies[..cut.value] else bodies, limitKb, |offered|);
    }
  }

  /** What is offered is enough exactly under the condition that can be seen beforehand. */
  lemma EnoughExactly(log: Log, leader: Log, ends: seq<int>, limitKb: real, offered: seq<Body>)
    requires leader.Ordered() && Offers(leader, ends, limitKb, |log.entries|, offered)
    ensures Enough(log, leader, offered) <==> CanCatchUp(log, leader, limitKb)
  {
    if |log.entries| < |leader.entries| {
      NextIsOffered(log, leader, ends, limitKb, offered);
    }
  }

  /** One answer catches the follower up: its log stays a prefix of the leader's, every finalization in
      the answer is accepted, and its finalized index is the last one in the answer. */
  lemma AnswerCatchesUp(net: Network, log: Log, leader: Log, ends: seq<int>, limitKb: real, request: Request,
                        offered: seq<Body>, lo: nat, response: Response)
    requires net.Valid() && log.Valid() && Trails(log, leader)
    requires leader.Valid() && leader.Certified(net) && LocksKnown(net, leader)
    requires Asks(log, leader, request) && Answers(leader, ends, limitKb, request, offered, lo, Some(response))
    requires CanCatchUp(log, leader, limitKb)
    ensures CaughtUp(log, leader, response.finalized, Synced(net, log, response).0, Synced(net, log, response).1)
  {
    var inserted := Append(log, offered);
    EnoughExactly(log, leader, ends, limitKb, offered);
    InsertedTrails(log, leader, ends, limitKb, offered);
    LockInfoNeverRaises(net, leader);
    LockedFirstKept(net, inserted, response.lastLocked);
    FinalizationsAccepted(net, log, LockedFirst(net, inserted, response.lastLocked).1, leader, request, offered,
          lo, response.finalized);
  }

  lemma {:induction false} AcceptedAreThere(net: Network, log: Log, infos: seq<SignatureData>, j: nat, k: nat)
    requires net.Valid() && log.Ordered() && j <= k < |infos|
    requires FinalizeFrom(net, log, infos, j).0 == Promotes
    ensures infos[k].point.index <= |log.entries|
    decreases |infos| - j
  {
    PromoteIgnoresBase(net, log, log.base, infos[j]);
    if j < k {
      AcceptedAreThere(net, Promote(net, log, infos[j]).1, infos, j + 1, k);
    }
  }

  /** Without that condition it does not: some finalization in the answer is refused. */
  lemma NotEnoughFails(net: Network, log: Log, leader: Log, ends: seq<int>, limitKb: real, request: Request,
                       offered: seq<Body>, lo: nat, response: Response)
    requires net.Valid() && log.Valid() && leader.Valid()
    requires Asks(log, leader, request) && Answers(leader, ends, limitKb, request, offered, lo, Some(response))
    requires !CanCatchUp(log, leader, limitKb)
    ensures Synced(net, log, response).0 != Promotes
  {
    var infos := response.finalized;
    EnoughExactly(log, leader, ends, limitKb, offered);
    assert infos != [] && lo + |infos| == |leader.points|;
    assert InfoAt(leader, lo, None, infos, |infos| - 1);
    assert infos[|infos| - 1].point.index == leader.LastFinalized() > |log.entries|;
    assert Append(log, offered) == log;
    var locked := LockedFirst(net, log, response.lastLocked);
    if response.lastLocked.Some? {
      PromoteIgnoresBase(net, log, log.base, response.lastLocked.value);
    }
    if FinalizeFrom(net, locked.1, infos, 0).0 == Promotes {
      AcceptedAreThere(net, locked.1, infos, 0, |infos| - 1);
    }
  }

  /** So an answer catches the follower up exactly if the next batch fits the limit or nothing is left to finalize. */
  lemma CatchesUpExactly(net: Network, log: Log, leader: Log, ends: seq<int>, limitKb: real, request: Request,
                         offered: seq<Body>, lo: nat, response: Response)
    requires net.Valid() && log.Valid() && Trails(log, leader)
    requires leader.Valid() && leader.Certified(net) && LocksKnown(net, leader)
    requires Asks(log, leader, request) && Answers(leader, ends, limitKb, request, offered, lo, Some(response))
    ensures CaughtUp(log, leader, response.finalized, Synced(net, log, response).0, Synced(net, log, response).1) <==>
            CanCatchUp(log, leader, limitKb)
  {
    if CanCatchUp(log, leader, limitKb) {
      AnswerCatchesUp(net, log, leader, ends, limitKb, request, offered, lo, response);
    } else {
      NotEnoughFails(net, log, leader, ends, limitKb, request, offered, lo, response);
    }
  }

  /** And once the answer reaches the leader's last sync point, both have finalized the same bodies. */
  lemma FullyCaughtUp(net: Network, log: Log, leader: Log, ends: seq<int>, limitKb: real, request: Request,
                      offered: seq<Body>, lo: nat, response: Response)
    requires net.Valid() && log.Valid() && Trails(log, leader)
    requires leader.Valid() && leader.Certified(net) && LocksKnown(net, leader)
    requires Asks(log, leader, request) && Answers(leader, ends, limitKb, request, offered, lo, Some(response))
    requires leader.LastFinalized() <= |log.entries| + |offered|
    ensures Synced(net, log, response).1.Valid()
    ensures FinalizedBodies(Synced(net, log, response).1) == FinalizedBodies(leader)
  {
    EnoughExactly(log, leader, ends, limitKb, offered);
    AnswerCatchesUp(net, log, leader, ends, limitKb, request, offered, lo, response);
    var r := Synced(net, log, response).1;
    ReachesEnd(log, leader, request, offered, lo, response.finalized);
    SameFinalized(r, leader);
  }

  lemma ReachesEnd(log: Log, leader: Log, request: Request, offered: seq<Body>, lo: nat, infos: seq<SignatureData>)
    requires log.Valid() && leader.Valid() && Asks(log, leader, request)
    requires ContinuesAt(leader, request.finalizedIndex, lo)
    requires Collected(leader, lo, LastOffered(request.sequencedIndex, offered), infos)
    requires leader.LastFinalized() <= |log.entries| + |offered|
    ensures leader.LastFinalized() == if infos == [] then log.LastFinalized() else infos[|infos| - 1].point.index
  {
    assert lo + |infos| == |leader.points|;
    if infos != [] {
      assert InfoAt(leader, lo, LastOffered(request.sequencedIndex, offered), infos, |infos| - 1);
    }
  }

  lemma SameFinalized(log: Log, leader: Log)
    requires log.Valid() && leader.Valid() && Trails(log, leader) && log.LastFinalized() == leader.LastFinalized()
    ensures FinalizedBodies(log) == FinalizedBodies(leader)
  {
    var f := log.LastFinalized();
    BodiesSlice(log.entries, 0, f);
    BodiesSlice(leader.entries, 0, f);
    assert log.entries[0..f] == log.entries[..f] && leader.entries[0..f] == leader.entries[..f];
    assert Bodies(log.entries)[0..f] == Bodies(leader.entries)[0..f];
  }
}
