// Why finalization agreement needs overlapping quorums: when two quorums have no member in common that
// follows the rules, each of them can finalize a log of its own.

module SplitBrain {
  import opened Batches
  import opened Certificates
  import opened ReplicatedLog
  import opened Agreement

  // ---- States that can come about ----

  ghost predicate Reachable(net: Network, faulty: set<NodeId>, s: System)
    requires net.Valid()
  {
    exists run: seq<System>, events :: Reaches(net, faulty, run, events, s)
  }

  ghost predicate Reaches(net: Network, faulty: set<NodeId>, run: seq<System>, events: seq<Event>, s: System)
    requires net.Valid()
  {
    IsHistory(net, run, events) && OnlyBy(events, faulty) && run[|run| - 1] == s
  }

  lemma ReachableInv(net: Network, faulty: set<NodeId>, s: System)
    requires net.Valid() && Reachable(net, faulty, s)
    ensures Inv(net, s)
    ensures forall n :: n in s.logs ==> s.logs[n].Valid() && s.logs[n].Ordered()
  {
    var run, events :| Reaches(net, faulty, run, events, s);
    HistoryInv(net, run, events, |run| - 1);
    forall n | n in s.logs
      ensures s.logs[n].Valid() && s.logs[n].Ordered()
    {
      assert NodeOk(net, s, n);
    }
  }

  lemma ReachStart(net: Network, faulty: set<NodeId>, names: set<NodeId>)
    requires net.Valid()
    ensures Reachable(net, faulty, System(map n | n in names :: EMPTY_LOG, {}, {}))
  {
    var s := System(map n | n in names :: EMPTY_LOG, {}, {});
    assert Reaches(net, faulty, [s], [], s);
  }

  lemma ReachStep(net: Network, faulty: set<NodeId>, s: System, e: Event)
    requires net.Valid() && Reachable(net, faulty, s)
    requires Possible(net, s, e) && (e.Bypass? ==> e.node in faulty)
    ensures forall n | n in s.logs :: s.logs[n].Ordered()
    ensures Reachable(net, faulty, Do(net, s, e))
  {
    ReachableInv(net, faulty, s);
    var run, events :| Reaches(net, faulty, run, events, s);
    var t := Do(net, s, e);
    var more, longer := events + [e], run + [t];
    forall k | 0 <= k < |more|
      ensures Follows(net, longer[k], more[k], longer[k + 1])
    {
      assert k < |events| ==> Follows(net, run[k], events[k], run[k + 1]);
    }
    assert Reaches(net, faulty, longer, more, t);
  }

  // ---- One event for each of many nodes ----

  ghost function NewSignatures(nodes: set<NodeId>, e: NodeId -> Event): set<Signature> {
    set n | n in nodes && !e(n).Local? :: Signature(n, e(n).point)
  }

  /** From s to t each of the nodes has taken its event. */
  ghost predicate AllDone(net: Network, s: System, t: System, nodes: set<NodeId>, e: NodeId -> Event)
    requires net.Valid() && forall n :: n in s.logs ==> s.logs[n].Ordered()
  {
    && t.logs.Keys == s.logs.Keys
    && (forall n :: n in s.logs ==> LogDone(net, s, t, nodes, e, n))
    && t.signed == s.signed + NewSignatures(nodes, e)
  }

  ghost predicate LogDone(net: Network, s: System, t: System, nodes: set<NodeId>, e: NodeId -> Event, n: NodeId)
    requires net.Valid() && n in s.logs && s.logs[n].Ordered() && t.logs.Keys == s.logs.Keys
  {
    t.logs[n] == if n in nodes && e(n).Local? then Apply(net, s.logs[n], e(n).action) else s.logs[n]
  }

  /** What was possible for a node stays possible while others act. */
  lemma StillPossible(net: Network, s: System, t: System, e: Event)
    requires Possible(net, s, e) && s.signed <= t.signed
    requires e.node in s.logs ==> e.node in t.logs && t.logs[e.node] == s.logs[e.node]
    ensures Possible(net, t, e)
  {
  }

  lemma {:induction false} Everyone(net: Network, faulty: set<NodeId>, s: System, nodes: set<NodeId>,
                                    e: NodeId -> Event)
    returns (t: System)
    requires net.Valid() && Reachable(net, faulty, s) && forall n :: n in s.logs ==> s.logs[n].Ordered()
    requires forall n | n in nodes :: e(n).node == n && Possible(net, s, e(n)) && (e(n).Bypass? ==> n in faulty)
    ensures Reachable(net, faulty, t) && AllDone(net, s, t, nodes, e)
    decreases |nodes|
  {
    if nodes == {} {
      return s;
    }
    var n :| n in nodes;
    var r := Everyone(net, faulty, s, nodes - {n}, e);
    assert n in s.logs ==> LogDone(net, s, r, nodes - {n}, e, n);
    StillPossible(net, s, r, e(n));
    ReachStep(net, faulty, r, e(n));
    t := Do(net, r, e(n));
    OneMore(net, s, r, t, nodes, e, n);
  }

  lemma OneMore(net: Network, s: System, r: System, t: System, nodes: set<NodeId>, e: NodeId -> Event, n: NodeId)
    requires net.Valid() && n in nodes && e(n).node == n && Possible(net, r, e(n))
    requires forall m :: m in s.logs ==> s.logs[m].Ordered()
    requires forall m | m in r.logs :: r.logs[m].Ordered()
    requires AllDone(net, s, r, nodes - {n}, e) && t == Do(net, r, e(n))
    ensures AllDone(net, s, t, nodes, e)
  {
    forall m | m in s.logs
      ensures LogDone(net, s, t, nodes, e, m)
    {
      assert LogDone(net, s, r, nodes - {n}, e, m);
    }
    assert NewSignatures(nodes, e) ==
             NewSignatures(nodes - {n}, e) + (if e(n).Local? then {} else {Signature(n, e(n).point)});
  }

  // ---- A quorum locks and finalizes a batch of its own ----

  function Opening(body: Body): Hash { LinkHash(NoHash, BodyHash(body)) }

  function LockPoint(body: Body): SyncPoint { SyncPoint(Sequenced, 1, Opening(body), 0, 0) }

  function FinalPoint(body: Body): SyncPoint { SyncPoint(Locked, 1, Opening(body), 0, 0) }

  /** A log with one batch, with that batch locked, and with it finalized. */
  function Stage(net: Network, members: set<NodeId>, body: Body, k: nat): (log: Log)
    requires 1 <= k <= 3
    ensures |log.entries| == 1
  {
    var one := Log([NewBatch(body, Opening(body))], 0, [], 0);
    if k == 1 then one
    else
      var two := WithLock(one, CertFor(net, members, LockPoint(body)));
      if k == 2 then two else WithFinalization(two, CertFor(net, members, FinalPoint(body)))
  }

  lemma StagesValid(net: Network, members: set<NodeId>, body: Body)
    ensures Append(EMPTY_LOG, [body]) == Stage(net, members, body, 1)
    ensures forall k | 1 <= k <= 3 :: Stage(net, members, body, k).Valid()
    ensures FinalizedBodies(Stage(net, members, body, 3)) == [body]
  {
    EmptyLogValid();
    AppendValid(EMPTY_LOG, [body]);
    assert [body][..0] == [];
    LockValid(Stage(net, members, body, 1), CertFor(net, members, LockPoint(body)));
    FinalizationValid(Stage(net, members, body, 2), CertFor(net, members, FinalPoint(body)));
    var three := Stage(net, members, body, 3);
    assert three.LastFinalized() == 1 && three.entries[..1] == three.entries;
  }

  /** Each stage follows from the one before by the quorum's certificate, and with its log's consent. */
  lemma StagesFollow(net: Network, members: set<NodeId>, body: Body)
    requires net.Valid() && IsQuorum(net, members)
    ensures Promote(net, Stage(net, members, body, 1), CertFor(net, members, LockPoint(body))).1 ==
              Stage(net, members, body, 2)
    ensures Promote(net, Stage(net, members, body, 2), CertFor(net, members, FinalPoint(body))).1 ==
              Stage(net, members, body, 3)
    ensures MaySign(Stage(net, members, body, 1), LockPoint(body), 0.0)
    ensures MaySign(Stage(net, members, body, 2), FinalPoint(body), 0.0)
  {
    QuorumAccepted(net, members, LockPoint(body));
    QuorumAccepted(net, members, FinalPoint(body));
  }

  /** The nodes of the quorum that keep to the rules, and one that finalizes. */
  function Side(members: set<NodeId>, faulty: set<NodeId>, w: NodeId): set<NodeId> {
    members - faulty + {w}
  }

  /** All nodes of one side are at the same stage; everybody else has not moved since s. */
  ghost predicate SideAt(net: Network, s: System, t: System, members: set<NodeId>, faulty: set<NodeId>, w: NodeId,
                         log: Log) {
    && t.logs.Keys == s.logs.Keys && s.signed <= t.signed
    && (forall n :: n in s.logs ==> t.logs[n] == if n in Side(members, faulty, w) then log else s.logs[n])
  }

  function SignOrBypass(faulty: set<NodeId>, p: SyncPoint): NodeId -> Event {
    n => if n in faulty then Bypass(n, p) else Sign(n, p, 0.0)
  }

  /** The members sign; those who keep to the rules because their logs agree. */
  lemma MembersSign(net: Network, s: System, t: System, members: set<NodeId>, faulty: set<NodeId>, w: NodeId, log: Log,
                    p: SyncPoint)
    returns (u: System)
    requires net.Valid() && Reachable(net, faulty, t) && SideAt(net, s, t, members, faulty, w, log)
    requires members - faulty <= s.logs.Keys && log.Valid() && (MaySignDefined(log); MaySign(log, p, 0.0))
    ensures Reachable(net, faulty, u) && SideAt(net, s, u, members, faulty, w, log)
    ensures CertFor(net, members, p).cert.signature <= u.signed
  {
    ReachableInv(net, faulty, t);
    var e := SignOrBypass(faulty, p);
    u := Everyone(net, faulty, t, members, e);
    forall n | n in s.logs
      ensures u.logs[n] == t.logs[n]
    {
      assert LogDone(net, t, u, members, e, n);
    }
    forall id | id in members
      ensures Signature(id, p) in u.signed
    {
      assert !e(id).Local? && Signature(id, e(id).point) in NewSignatures(members, e);
    }
  }

  /** The nodes of the side act on their own logs. */
  lemma SideActs(net: Network, s: System, t: System, members: set<NodeId>, faulty: set<NodeId>, w: NodeId, log: Log,
                 action: Action)
    returns (u: System)
    requires net.Valid() && Reachable(net, faulty, t) && SideAt(net, s, t, members, faulty, w, log)
    requires Side(members, faulty, w) <= s.logs.Keys && log.Ordered()
    requires action.Delivering? ==> action.data.cert.signature <= t.signed
    ensures Reachable(net, faulty, u) && SideAt(net, s, u, members, faulty, w, Apply(net, log, action))
  {
    ReachableInv(net, faulty, t);
    var e := n => Local(n, action);
    u := Everyone(net, faulty, t, Side(members, faulty, w), e);
    forall n | n in s.logs
      ensures u.logs[n] == if n in Side(members, faulty, w) then Apply(net, log, action) else s.logs[n]
    {
      assert LogDone(net, t, u, Side(members, faulty, w), e, n);
    }
  }

  /** From any state in which a side's logs are empty, its quorum can finalize a batch, and the rest does not move. */
  lemma SideFinalizes(net: Network, s: System, members: set<NodeId>, faulty: set<NodeId>, w: NodeId, body: Body)
    returns (t: System)
    requires net.Valid() && Reachable(net, faulty, s) && IsQuorum(net, members)
    requires Side(members, faulty, w) <= s.logs.Keys
    requires forall n | n in Side(members, faulty, w) :: s.logs[n] == EMPTY_LOG
    ensures Reachable(net, faulty, t) && SideAt(net, s, t, members, faulty, w, Stage(net, members, body, 3))
  {
    EmptyLogValid();
    StagesValid(net, members, body);
    StagesFollow(net, members, body);
    var lock, final := CertFor(net, members, LockPoint(body)), CertFor(net, members, FinalPoint(body));
    t := SideActs(net, s, s, members, faulty, w, EMPTY_LOG, Appending([body]));
    t := MembersSign(net, s, t, members, faulty, w, Stage(net, members, body, 1), LockPoint(body));
    t := SideActs(net, s, t, members, faulty, w, Stage(net, members, body, 1), Delivering(lock));
    t := MembersSign(net, s, t, members, faulty, w, Stage(net, members, body, 2), FinalPoint(body));
    t := SideActs(net, s, t, members, faulty, w, Stage(net, members, body, 2), Delivering(final));
  }

  // ---- Two quorums without an honest node in common ----

  lemma {:induction false} Fresh(names: set<NodeId>) returns (id: NodeId)
    ensures id !in names
    ensures forall n | n in names :: |n| < |id|
    decreases |names|
  {
    if names == {} {
      id := "";
    } else {
      var n :| n in names;
      var rest := Fresh(names - {n});
      id := rest + n + "x";
    }
  }

  lemma TwoLogs(net: Network, faulty: set<NodeId>, a: set<NodeId>, b: set<NodeId>, x: Body, y: Body)
    returns (s: System, v: NodeId, w: NodeId)
    requires net.Valid() && IsQuorum(net, a) && IsQuorum(net, b) && !ShareHonest(a, b, faulty)
    ensures Reachable(net, faulty, s) && v in s.logs && w in s.logs
    ensures s.logs[v] == Stage(net, a, x, 3) && s.logs[w] == Stage(net, b, y, 3)
  {
    v := Fresh(net.Ids());
    w := Fresh(net.Ids() + {v});
    var names := net.Ids() + {v, w};
    ReachStart(net, faulty, names);
    s := System(map n | n in names :: EMPTY_LOG, {}, {});
    assert Side(a, faulty, v) !! Side(b, faulty, w) by {
      forall id | id in Side(a, faulty, v) && id in Side(b, faulty, w)
        ensures id in a && id in b && id !in faulty
      {
      }
    }
    s := SideFinalizes(net, s, a, faulty, v, x);
    s := SideFinalizes(net, s, b, faulty, w, y);
  }

  /** Then some run diverges, although only faulty nodes bypass the check. */
  lemma SplitIsUnsafe(net: Network, faulty: set<NodeId>)
    requires net.Valid() && !Overlapping(net, faulty)
    ensures !Safe(net, faulty)
  {
    var a, b :| IsQuorum(net, a) && IsQuorum(net, b) && !ShareHonest(a, b, faulty);
    var x: Body, y: Body := [], [0];
    var s, v, w := TwoLogs(net, faulty, a, b, x, y);
    StagesValid(net, a, x);
    StagesValid(net, b, y);
    assert !Compatible(s.logs[v], s.logs[w]);
    var run, events :| Reaches(net, faulty, run, events, s);
    assert !NeverDiverges(run);
  }

  /** Finalized logs never diverge, whatever the faulty nodes do, exactly if every two quorums have a
      member in common that is not faulty. */
  lemma AgreementExactly(net: Network, faulty: set<NodeId>)
    requires net.Valid()
    ensures Safe(net, faulty) <==> Overlapping(net, faulty)
  {
    if Overlapping(net, faulty) {
      OverlapIsSafe(net, faulty);
    } else {
      SplitIsUnsafe(net, faulty);
    }
  }

  // ---- Two networks of equal stakes ----

  function Peers(a: NodeId, b: NodeId, c: NodeId): seq<Node> { [Node(a, 1.0), Node(b, 1.0), Node(c, 1.0)] }

  lemma StakeOfPeers(a: NodeId, b: NodeId, c: NodeId, members: set<NodeId>)
    ensures Stake(Peers(a, b, c)[1..], members) ==
              (if b in members then 1.0 else 0.0) + (if c in members then 1.0 else 0.0)
    ensures Stake(Peers(a, b, c), members) == (if a in members then 1.0 else 0.0) + Stake(Peers(a, b, c)[1..], members)
  {
    var nodes := Peers(a, b, c);
    var two := nodes[1..];
    assert two[1..] == [Node(c, 1.0)] && two[1..][1..] == [];
    assert Stake(two, members) == (if b in members then 1.0 else 0.0) + Stake(two[1..], members);
  }

  /** Two equal nodes are unsafe without any fault for every threshold up to one half. */
  lemma TwoEqualsSplit(b: NodeId, c: NodeId, threshold: real)
    requires b != c && threshold <= 50.0
    ensures var net := Network([Node(b, 1.0), Node(c, 1.0)], threshold);
      net.Valid() && !Safe(net, {})
  {
    var net := Network([Node(b, 1.0), Node(c, 1.0)], threshold);
    assert Peers(b, b, c)[1..] == net.attesting;
    assert net.Ids() == {b, c} by {
      assert net.attesting[0].id == b && net.attesting[1].id == c;
    }
    StakeOfPeers(b, b, c, {b});
    StakeOfPeers(b, b, c, {c});
    StakeOfPeers(b, b, c, {b, c});
    assert IsQuorum(net, {b}) && IsQuorum(net, {c}) && !ShareHonest({b}, {c}, {});
    AgreementExactly(net, {});
  }

  /** Three equal nodes are safe at one half, and at the 40 percent of the example settings, although
      the stake bound says nothing there. */
  lemma ThreeEqualsOverlap(a: NodeId, b: NodeId, c: NodeId, threshold: real)
    requires a != b && a != c && b != c && 40.0 <= threshold <= 50.0
    ensures var net := Network(Peers(a, b, c), threshold);
      net.Valid() && Safe(net, {}) && !EnoughHonest(net, {})
  {
    var net := Network(Peers(a, b, c), threshold);
    assert net.Ids() == {a, b, c} by {
      assert net.attesting[0].id == a && net.attesting[1].id == b && net.attesting[2].id == c;
    }
    StakeOfPeers(a, b, c, {a, b, c});
    StakeEmpty(net.attesting);
    forall p, q | IsQuorum(net, p) && IsQuorum(net, q)
      ensures ShareHonest(p, q, {})
    {
      StakeOfPeers(a, b, c, p);
      StakeOfPeers(a, b, c, q);
      assert (a in p && a in q) || (b in p && b in q) || (c in p && c in q);
    }
    AgreementExactly(net, {});
  }
}
