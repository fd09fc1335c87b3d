// Finalization agreement: nodes run their logs and sign sync points, anyone may sign anything
// behind the node software's back and deliver any certificate made of existing signatures.

module Agreement {
  import opened Batches
  import opened Certificates
  import opened ReplicatedLog

  /** sign_sync_point: what the node software agrees to sign, given its log and its clock. */
  predicate MaySign(log: Log, p: SyncPoint, now: real)
    requires log.LastFinalized() != 0 ==>
               log.InMemory(log.LastFinalized()) && log.At(log.LastFinalized()).timestamp.Some?
  {
    && (if p.state == Locked then now - 10.0 < p.timestamp as real < now + 10.0 else p.timestamp == 0)
    && (log.LastFinalized() != 0 ==>
          && (p.state == Locked ==> log.At(log.LastFinalized()).timestamp.value <= p.timestamp)
          && p.parent == log.LastFinalized())
    && 1 <= p.index
    && log.InMemory(p.index)
    && log.At(p.index).chainingHash == p.chainingHash
    && p.state.BeforeOrEqual(log.StateOf(p.index))
  }

  lemma MaySignDefined(log: Log)
    requires log.Valid()
    ensures log.LastFinalized() != 0 ==>
              log.InMemory(log.LastFinalized()) && log.At(log.LastFinalized()).timestamp.Some?
  {
    if log.points != [] {
      assert log.PointLinked(|log.points| - 1);
    }
  }

  /** All logs, every signature that exists, and those that went through sign_sync_point. */
  datatype System = System(logs: map<NodeId, Log>, signed: set<Signature>, checked: set<Signature>)

  datatype Event =
    | Local(node: NodeId, action: Action)
    | Sign(node: NodeId, point: SyncPoint, now: real)
    | Bypass(node: NodeId, point: SyncPoint)

  /** A certificate can only be delivered once its signatures exist; signing needs the log's consent.
      Faulty nodes, and a collecting sequencer signing for itself, take the Bypass event. */
  ghost predicate Possible(net: Network, s: System, e: Event) {
    match e
    case Local(n, action) =>
      && n in s.logs
      && (action.Delivering? ==> action.data.cert.signature <= s.signed)
    case Sign(n, point, now) =>
      n in s.logs && s.logs[n].Valid() && (MaySignDefined(s.logs[n]); MaySign(s.logs[n], point, now))
    case Bypass(n, point) => true
  }

  ghost function Do(net: Network, s: System, e: Event): System
    requires net.Valid() && Possible(net, s, e)
    requires forall n | n in s.logs :: s.logs[n].Ordered()
  {
    match e
    case Local(n, action) => s.(logs := s.logs[n := Apply(net, s.logs[n], action)])
    case Sign(n, point, _) => s.(signed := s.signed + {Signature(n, point)},
                                 checked := s.checked + {Signature(n, point)})
    case Bypass(n, point) => s.(signed := s.signed + {Signature(n, point)})
  }

  /** The certificates of a log's sync points are made of signatures that exist. */
  ghost predicate Backed(log: Log, signed: set<Signature>) {
    forall i :: 1 <= i <= |log.entries| && log.At(i).finalizedCert.Some? ==>
        log.At(i).finalizedCert.value.signature <= signed
  }

  /** The log has locked what the point names. */
  ghost predicate Vouches(log: Log, p: SyncPoint) {
    1 <= p.index <= log.locked && log.locked <= |log.entries| && log.At(p.index).chainingHash == p.chainingHash
  }

  ghost predicate NodeOk(net: Network, s: System, n: NodeId)
    requires net.Valid() && n in s.logs
  {
    s.logs[n].Valid() && s.logs[n].Certified(net) && Backed(s.logs[n], s.signed)
  }

  ghost predicate SignatureOk(s: System, sig: Signature) {
    if sig.point.state == Locked then sig.node in s.logs && Vouches(s.logs[sig.node], sig.point)
    else sig.point.timestamp == 0
  }

  ghost predicate Inv(net: Network, s: System)
    requires net.Valid()
  {
    && (forall n :: n in s.logs ==> NodeOk(net, s, n))
    && s.checked <= s.signed
    && (forall sig :: sig in s.checked ==> SignatureOk(s, sig))
  }

  lemma {:induction false} AppendBacked(log: Log, bodies: seq<Body>, signed: set<Signature>)
    requires Backed(log, signed)
    ensures Backed(Append(log, bodies), signed)
  {
    if bodies != [] {
      var most, r := Append(log, bodies[..|bodies| - 1]), Append(log, bodies);
      AppendBacked(log, bodies[..|bodies| - 1], signed);
      assert forall i | 1 <= i <= |most.entries| :: r.At(i) == most.At(i);
    }
  }

  lemma ApplyBacked(net: Network, log: Log, action: Action, signed: set<Signature>)
    requires net.Valid() && log.Valid() && Backed(log, signed)
    requires action.Delivering? ==> action.data.cert.signature <= signed
    ensures Backed(Apply(net, log, action), signed)
  {
    match action
    case Appending(bodies) => AppendBacked(log, bodies, signed);
    case Delivering(data) => PromoteBacked(net, log, data, signed);
    case _ =>
      assert forall i | 1 <= i <= |Apply(net, log, action).entries| :: Apply(net, log, action).At(i) == log.At(i);
  }

  lemma PromoteBacked(net: Network, log: Log, data: SignatureData, signed: set<Signature>)
    requires net.Valid() && log.Valid() && Backed(log, signed)
    requires data.cert.signature <= signed
    ensures Backed(Promote(net, log, data).1, signed)
  {
    var r := Promote(net, log, data).1;
    forall i | 1 <= i <= |r.entries| && r.At(i).finalizedCert.Some?
      ensures r.At(i).finalizedCert.value.signature <= signed
    {
      assert r.At(i).finalizedCert == log.At(i).finalizedCert || r.At(i).finalizedCert == Some(data.cert);
    }
  }

  lemma VouchesKept(a: Log, b: Log, p: SyncPoint)
    requires Vouches(a, p) && Endures(a, b) && b.locked <= |b.entries|
    ensures Vouches(b, p)
  {
    assert EntryEndures(a, b, p.index);
  }

  /** Every event keeps the invariant. */
  lemma StepInv(net: Network, s: System, e: Event)
    requires net.Valid() && Inv(net, s) && Possible(net, s, e)
    ensures (forall n | n in s.logs :: NodeOk(net, s, n) && s.logs[n].Ordered()) && Inv(net, Do(net, s, e))
  {
    assert forall n | n in s.logs :: NodeOk(net, s, n) && s.logs[n].Ordered();
    var t := Do(net, s, e);
    match e
    case Local(n, action) => LocalInv(net, s, n, action);
    case Sign(n, point, now) =>
      NodesKept(net, s, t);
      assert SignatureOk(t, Signature(n, point)) by {
        assert NodeOk(net, s, n);
      }
      forall sig | sig in t.checked
        ensures SignatureOk(t, sig)
      {
        assert sig in s.checked ==> SignatureOk(s, sig);
      }
    case Bypass(n, point) =>
      NodesKept(net, s, t);
      forall sig | sig in t.checked
        ensures SignatureOk(t, sig)
      {
        assert SignatureOk(s, sig);
      }
  }

  lemma NodesKept(net: Network, s: System, t: System)
    requires net.Valid() && Inv(net, s)
    requires t.logs == s.logs && s.signed <= t.signed
    ensures forall n :: n in t.logs ==> NodeOk(net, t, n)
  {
    forall n | n in t.logs
      ensures NodeOk(net, t, n)
    {
      assert NodeOk(net, s, n);
    }
  }

  lemma LocalInv(net: Network, s: System, n: NodeId, action: Action)
    requires net.Valid() && Inv(net, s) && Possible(net, s, Local(n, action))
    requires forall m | m in s.logs :: s.logs[m].Ordered()
    ensures Inv(net, Do(net, s, Local(n, action)))
  {
    var t := Do(net, s, Local(n, action));
    assert NodeOk(net, s, n);
    ApplyValid(net, s.logs[n], action);
    ApplyCertified(net, s.logs[n], action);
    ApplyBacked(net, s.logs[n], action, s.signed);
    ApplyEndures(net, s.logs[n], action);
    forall m | m in t.logs
      ensures NodeOk(net, t, m)
    {
      assert NodeOk(net, s, m);
    }
    forall sig | sig in t.checked
      ensures SignatureOk(t, sig)
    {
      assert SignatureOk(s, sig);
      if sig.point.state == Locked && sig.node == n {
        VouchesKept(s.logs[n], t.logs[n], sig.point);
      }
    }
  }

  // ---- Certificates name one chain ----

  /** There is one list of bodies whose chaining hash at either index is the one named. */
  ghost predicate OneChain(lower: SyncPoint, upper: SyncPoint) {
    exists bodies: seq<Body> :: NamedBy(bodies, lower, upper)
  }

  ghost predicate NamedBy(bodies: seq<Body>, lower: SyncPoint, upper: SyncPoint) {
    && 1 <= lower.index <= upper.index == |bodies|
    && ChainHash(bodies) == upper.chainingHash
    && ChainHash(bodies[..lower.index]) == lower.chainingHash
  }

  /** Nodes whose signature on one of the points did not go through sign_sync_point. */
  ghost function Bypassers(s: System, p: SyncPoint, q: SyncPoint): set<NodeId> {
    set sig | sig in s.signed && sig !in s.checked && (sig.point == p || sig.point == q) :: sig.node
  }

  /** Two quorums always have a member in common that is not one of some faulty nodes. */
  ghost predicate Overlapping(net: Network, faulty: set<NodeId>) {
    forall a, b :: IsQuorum(net, a) && IsQuorum(net, b) ==> ShareHonest(a, b, faulty)
  }

  ghost predicate ShareHonest(a: set<NodeId>, b: set<NodeId>, faulty: set<NodeId>) {
    exists id :: id in a && id in b && id !in faulty
  }

  lemma FewerFaultyOverlap(net: Network, few: set<NodeId>, many: set<NodeId>)
    requires few <= many && Overlapping(net, many)
    ensures Overlapping(net, few)
  {
    forall a, b | IsQuorum(net, a) && IsQuorum(net, b)
      ensures ShareHonest(a, b, few)
    {
      assert ShareHonest(a, b, many);
    }
  }

  /** Enough for that: the faulty stake is below what two quorums must have in common. */
  ghost predicate EnoughHonest(net: Network, faulty: set<NodeId>) {
    100.0 * net.StakeOf(faulty) < (2.0 * net.threshold - 100.0) * net.Total()
  }

  lemma EnoughHonestOverlaps(net: Network, faulty: set<NodeId>)
    requires net.Valid() && EnoughHonest(net, faulty)
    ensures Overlapping(net, faulty)
  {
    forall a, b | IsQuorum(net, a) && IsQuorum(net, b)
      ensures ShareHonest(a, b, faulty)
    {
      StakeModular(net.attesting, a, b);
      StakeMonotone(net.attesting, a + b, net.Ids());
      var id := StakeWitness(net.attesting, a * b, faulty);
    }
  }

  /** The documented rule: a threshold of two thirds and less than a third of the stake faulty. */
  lemma OneThirdSuffices(net: Network, faulty: set<NodeId>)
    requires net.Valid() && 3.0 * net.threshold >= 200.0 && 3.0 * net.StakeOf(faulty) < net.Total()
    ensures EnoughHonest(net, faulty) && Overlapping(net, faulty)
  {
    TotalPositive(net);
    var spare := 3.0 * net.threshold - 200.0;
    assert spare * net.Total() >= 0.0;
    assert spare * net.Total() == 3.0 * (net.threshold * net.Total()) - 200.0 * net.Total();
    assert (2.0 * net.threshold - 100.0) * net.Total() == 2.0 * (net.threshold * net.Total()) - 100.0 * net.Total();
    EnoughHonestOverlaps(net, faulty);
  }

  /** Both certificates carry a checked signature of one and the same node. */
  lemma CommonSigner(net: Network, s: System, a: SignatureData, b: SignatureData) returns (id: NodeId)
    requires net.Valid()
    requires Verify(net, a) == Accepts && Verify(net, b) == Accepts
    requires a.cert.signature <= s.signed && b.cert.signature <= s.signed
    requires Overlapping(net, Bypassers(s, a.point, b.point))
    ensures Signature(id, a.point) in s.checked && Signature(id, b.point) in s.checked
  {
    var p, q := Signers(net, a.cert.nonsigners), Signers(net, b.cert.nonsigners);
    AcceptedStake(net, a);
    AcceptedStake(net, b);
    assert ShareHonest(p, q, Bypassers(s, a.point, b.point));
    id :| id in p && id in q && id !in Bypassers(s, a.point, b.point);
    var x, y := Signature(id, a.point), Signature(id, b.point);
    assert x in a.cert.signature && y in b.cert.signature;
    assert x !in s.checked ==> x.node in Bypassers(s, a.point, b.point);
    assert y !in s.checked ==> y.node in Bypassers(s, a.point, b.point);
  }

  /** Two finalization certificates cannot name hashes of different chains. */
  lemma CertificatesAgree(net: Network, s: System, a: SignatureData, b: SignatureData)
    requires net.Valid() && Inv(net, s)
    requires Verify(net, a) == Accepts && Verify(net, b) == Accepts
    requires a.cert.signature <= s.signed && b.cert.signature <= s.signed
    requires a.point.state == Locked && b.point.state == Locked && a.point.index <= b.point.index
    requires Overlapping(net, Bypassers(s, a.point, b.point))
    ensures OneChain(a.point, b.point)
  {
    var id := CommonSigner(net, s, a, b);
    assert SignatureOk(s, Signature(id, a.point)) && SignatureOk(s, Signature(id, b.point));
    var log := s.logs[id];
    assert NodeOk(net, s, id);
    HashAt(log, a.point.index);
    HashAt(log, b.point.index);
    var bodies := Bodies(log.entries[..b.point.index]);
    BodiesSlice(log.entries[..b.point.index], 0, a.point.index);
    assert log.entries[..b.point.index][0..a.point.index] == log.entries[..a.point.index];
    assert NamedBy(bodies, a.point, b.point);
  }

  lemma HashAt(log: Log, i: int)
    requires log.Valid() && 1 <= i <= |log.entries|
    ensures log.At(i).chainingHash == ChainHash(Bodies(log.entries[..i]))
  {
    SameChain(log.entries, log.entries[..i]);
    ChainedMeaning(log.entries[..i]);
  }

  /** The certificate a log's last finalized entry rests on. */
  ghost function LastPoint(log: Log): SyncPoint
    requires log.Valid() && log.points != []
  {
    assert log.PointLinked(|log.points| - 1);
    log.PointData(log.LastFinalized()).point
  }

  ghost function FinalizedBodies(log: Log): seq<Body>
    requires log.Ordered()
  {
    Bodies(log.entries[..log.LastFinalized()])
  }

  /** A log whose sync points rest on certificates that exist in s. */
  ghost predicate Rests(net: Network, log: Log, s: System)
    requires net.Valid()
  {
    log.Valid() && log.Certified(net) && Backed(log, s.signed)
  }

  /** The shorter finalized part is a prefix of the longer one. */
  lemma FinalizedLogsAgree(net: Network, s: System, x: Log, y: Log)
    requires net.Valid() && Inv(net, s) && Rests(net, x, s) && Rests(net, y, s)
    requires x.LastFinalized() <= y.LastFinalized()
    requires x.points != [] && y.points != [] ==> Overlapping(net, Bypassers(s, LastPoint(x), LastPoint(y)))
    ensures FinalizedBodies(x) <= FinalizedBodies(y)
  {
    if x.points != [] {
      var f, g := x.LastFinalized(), y.LastFinalized();
      assert x.PointLinked(|x.points| - 1) && y.PointLinked(|y.points| - 1);
      assert x.PointCertified(net, f) && y.PointCertified(net, g);
      CertificatesAgree(net, s, x.PointData(f), y.PointData(g));
      var bodies :| NamedBy(bodies, LastPoint(x), LastPoint(y));
      HashAt(x, f);
      HashAt(y, g);
      ChainHashInjective(bodies, FinalizedBodies(y));
      ChainHashInjective(bodies[..f], FinalizedBodies(x));
    }
  }

  // ---- Over whole runs ----

  /** All logs start empty and nothing is signed; then events happen one at a time. */
  ghost predicate IsHistory(net: Network, run: seq<System>, events: seq<Event>)
    requires net.Valid()
  {
    && |run| == |events| + 1
    && (forall n | n in run[0].logs :: run[0].logs[n] == EMPTY_LOG)
    && run[0].signed == {} && run[0].checked == {}
    && (forall k :: 0 <= k < |events| ==> Follows(net, run[k], events[k], run[k + 1]))
  }

  ghost predicate Follows(net: Network, s: System, e: Event, t: System)
    requires net.Valid()
  {
    && Possible(net, s, e)
    && ((forall n | n in s.logs :: s.logs[n].Ordered()) ==> t == Do(net, s, e))
  }

  lemma {:induction false} HistoryInv(net: Network, run: seq<System>, events: seq<Event>, k: nat)
    requires net.Valid() && IsHistory(net, run, events) && k < |run|
    ensures Inv(net, run[k])
  {
    if k == 0 {
      EmptyLogValid();
      forall n | n in run[0].logs
        ensures NodeOk(net, run[0], n)
      {
        assert run[0].logs[n] == EMPTY_LOG;
      }
    } else {
      HistoryInv(net, run, events, k - 1);
      assert Follows(net, run[k - 1], events[k - 1], run[k - 1 + 1]);
      StepInv(net, run[k - 1], events[k - 1]);
    }
  }

  lemma {:induction false} SignedGrows(net: Network, run: seq<System>, events: seq<Event>, j: nat, k: nat)
    requires net.Valid() && IsHistory(net, run, events) && j <= k < |run|
    ensures run[j].signed <= run[k].signed
    decreases k - j
  {
    if j < k {
      SignedGrows(net, run, events, j, k - 1);
      HistoryInv(net, run, events, k - 1);
      assert Follows(net, run[k - 1], events[k - 1], run[k - 1 + 1]);
      StepInv(net, run[k - 1], events[k - 1]);
    }
  }

  ghost predicate Compatible(a: Log, b: Log) {
    && a.Ordered() && b.Ordered()
    && (FinalizedBodies(a) <= FinalizedBodies(b) || FinalizedBodies(b) <= FinalizedBodies(a))
  }

  /** The finalized logs of any two nodes, taken at any two moments of any run, never diverge, as long as
      quorums overlap outside the nodes whose signatures on their last sync points were not checked. */
  lemma FinalizationAgreement(net: Network, run: seq<System>, events: seq<Event>, j: nat, k: nat, m: NodeId, n: NodeId)
    requires net.Valid() && IsHistory(net, run, events) && j <= k < |run|
    requires m in run[j].logs && n in run[k].logs
    requires run[j].logs[m].Valid() && run[k].logs[n].Valid()
    requires run[j].logs[m].points != [] && run[k].logs[n].points != [] ==>
             Overlapping(net, Bypassers(run[k], LastPoint(run[j].logs[m]), LastPoint(run[k].logs[n])))
    ensures Compatible(run[j].logs[m], run[k].logs[n])
  {
    HistoryInv(net, run, events, j);
    HistoryInv(net, run, events, k);
    SignedGrows(net, run, events, j, k);
    var x, y, s := run[j].logs[m], run[k].logs[n], run[k];
    assert NodeOk(net, run[j], m) && NodeOk(net, run[k], n);
    assert Rests(net, x, s) && Rests(net, y, s);
    if x.LastFinalized() <= y.LastFinalized() {
      FinalizedLogsAgree(net, s, x, y);
    } else {
      if x.points != [] && y.points != [] {
        assert Bypassers(s, LastPoint(x), LastPoint(y)) == Bypassers(s, LastPoint(y), LastPoint(x));
      }
      FinalizedLogsAgree(net, s, y, x);
    }
  }

  // ---- Which networks are safe ----

  /** Only some nodes sign behind the node software's back. */
  ghost predicate OnlyBy(events: seq<Event>, faulty: set<NodeId>) {
    forall k :: 0 <= k < |events| && events[k].Bypass? ==> events[k].node in faulty
  }

  ghost predicate NeverDiverges(run: seq<System>) {
    forall j, k, m, n :: 0 <= j < |run| && 0 <= k < |run| && m in run[j].logs && n in run[k].logs ==>
      Compatible(run[j].logs[m], run[k].logs[n])
  }

  /** Whatever happens, and whatever the faulty nodes sign, finalized logs do not diverge. */
  ghost predicate Safe(net: Network, faulty: set<NodeId>)
    requires net.Valid()
  {
    forall run: seq<System>, events :: IsHistory(net, run, events) && OnlyBy(events, faulty) ==> NeverDiverges(run)
  }

  lemma {:induction false} UncheckedByFaulty(net: Network, run: seq<System>, events: seq<Event>, faulty: set<NodeId>,
                                             k: nat)
    requires net.Valid() && IsHistory(net, run, events) && OnlyBy(events, faulty) && k < |run|
    ensures forall sig | sig in run[k].signed && sig !in run[k].checked :: sig.node in faulty
  {
    if k > 0 {
      UncheckedByFaulty(net, run, events, faulty, k - 1);
      HistoryInv(net, run, events, k - 1);
      assert Follows(net, run[k - 1], events[k - 1], run[k - 1 + 1]);
      StepInv(net, run[k - 1], events[k - 1]);
    }
  }

  /** Overlapping quorums make every run safe. */
  lemma OverlapIsSafe(net: Network, faulty: set<NodeId>)
    requires net.Valid() && Overlapping(net, faulty)
    ensures Safe(net, faulty)
  {
    forall run: seq<System>, events | IsHistory(net, run, events) && OnlyBy(events, faulty)
      ensures NeverDiverges(run)
    {
      forall j, k, m, n | 0 <= j < |run| && 0 <= k < |run| && m in run[j].logs && n in run[k].logs
        ensures Compatible(run[j].logs[m], run[k].logs[n])
      {
        if j <= k {
          TwoMoments(net, run, events, faulty, j, k, m, n);
        } else {
          TwoMoments(net, run, events, faulty, k, j, n, m);
        }
      }
    }
  }

  lemma TwoMoments(net: Network, run: seq<System>, events: seq<Event>, faulty: set<NodeId>, j: nat, k: nat, m: NodeId,
                   n: NodeId)
    requires net.Valid() && Overlapping(net, faulty) && IsHistory(net, run, events) && OnlyBy(events, faulty)
    requires j <= k < |run| && m in run[j].logs && n in run[k].logs
    ensures Compatible(run[j].logs[m], run[k].logs[n])
  {
    HistoryInv(net, run, events, j);
    HistoryInv(net, run, events, k);
    assert NodeOk(net, run[j], m) && NodeOk(net, run[k], n);
    UncheckedByFaulty(net, run, events, faulty, k);
    var x, y := run[j].logs[m], run[k].logs[n];
    if x.points != [] && y.points != [] {
      FewerFaultyOverlap(net, Bypassers(run[k], LastPoint(x), LastPoint(y)), faulty);
    }
    FinalizationAgreement(net, run, events, j, k, m, n);
  }
}
