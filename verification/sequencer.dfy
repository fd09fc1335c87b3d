// The sequencer's side: answering a node's batches (sequencer/routers.py) and choosing what to
// have signed next (sequencer/tasks.py).

module Sequencers {
  import opened Batches
  import opened BatchSequences
  import opened Certificates
  import opened ReplicatedLog
  import opened Images
  import opened TieredReads
  import opened Database
  import opened SyncPoints

  /** What a node sends along with its new bodies. */
  datatype Request = Request(
    bodies: seq<Body>,
    sequencedIndex: int,
    sequencedHash: Hash,
    lockedIndex: int,
    lockedHash: Hash,
    finalizedIndex: int)

  datatype Response = Response(
    bodies: seq<Body>,
    lastFinalized: int,
    finalized: seq<SignatureData>,
    lastLocked: Option<SignatureData>)

  // ---- What an answer holds ----

  /** The bodies that follow a node's last sequenced index, as many as a tiered read brings under the size limit. */
  ghost predicate Offers(log: Log, ends: seq<int>, limitKb: real, after: int, bodies: seq<Body>)
    requires log.Ordered()
  {
    var wanted := Bodies(Wanted(log, Sequenced, after));
    |bodies| <= |wanted| && bodies == wanted[..|bodies|] &&
        ReadsTo(ends, log.base, Max(after, 0), wanted, limitKb, |bodies|)
  }

  /** So the bodies of an answer are fixed by the log, its chunks on disk and the request. */
  lemma OffersUnique(log: Log, ends: seq<int>, limitKb: real, after: int, a: seq<Body>, b: seq<Body>)
    requires log.Ordered() && Offers(log, ends, limitKb, after, a) && Offers(log, ends, limitKb, after, b)
    ensures a == b
  {
    ReadUnique(ends, log.base, Max(after, 0), Bodies(Wanted(log, Sequenced, after)), limitKb, |a|, |b|);
  }

  /** The index of the last body of an answer, if it has any. */
  function LastOffered(after: int, bodies: seq<Body>): Option<int> {
    if bodies == [] then None else Some(Max(after, 0) + |bodies|)
  }

  predicate Within(i: int, last: Option<int>) {
    last.None? || i <= last.value
  }

  /** The position among the sync points from which an answer to a node that has finalized up to x
      continues: behind x if x is a sync point in memory, from the first one for 0, else nowhere. */
  ghost predicate ContinuesAt(log: Log, x: int, lo: nat) {
    && lo <= |log.points|
    && if x == 0 then lo == 0
       else if lo > 0 && log.points[lo - 1] == x && log.InMemory(x) then true
       else lo == |log.points| && !(log.InMemory(x) && x in log.points)
  }

  /** The sync point that follows x, for an x from which a list can continue. */
  ghost predicate IsNextPoint(log: Log, x: int, next: Option<int>) {
    if x != 0 && !(log.InMemory(x) && x in log.points) then next == None
    else if next.None? then forall p | p in log.points :: p <= x
    else next.value in log.points && x < next.value && forall p | p in log.points && x < p :: next.value <= p
  }

  lemma NextIsNextPoint(log: Log, x: int, lo: nat)
    requires log.Valid() && ContinuesAt(log, x, lo)
    ensures IsNextPoint(log, x, if lo < |log.points| then Some(log.points[lo]) else None)
  {
    if x == 0 || (log.InMemory(x) && x in log.points) {
      assert lo > 0 ==> log.points[lo - 1] == x;
      forall p | p in log.points
        ensures lo < |log.points| ==> (x < p ==> log.points[lo] <= p)
        ensures lo == |log.points| ==> p <= x
      {
        var k :| 0 <= k < |log.points| && log.points[k] == p;
        assert k < lo ==> p <= x;
      }
    }
  }

  /** Consecutive sync points from a position on, up to the last one within the answer. */
  ghost predicate Collected(log: Log, lo: nat, last: Option<int>, infos: seq<SignatureData>)
    requires log.Linked() && lo <= |log.points|
  {
    && lo + |infos| <= |log.points|
    && (forall j :: 0 <= j < |infos| ==> InfoAt(log, lo, last, infos, j))
    && (lo + |infos| < |log.points| ==> !Within(log.points[lo + |infos|], last))
  }

  ghost predicate InfoAt(log: Log, lo: nat, last: Option<int>, infos: seq<SignatureData>, j: nat)
    requires log.Linked() && j < |infos| && lo + |infos| <= |log.points|
  {
    assert log.PointLinked(lo + j);
    infos[j] == log.PointData(log.points[lo + j]) && Within(log.points[lo + j], last)
  }

  /** So every entry of the list names the one before it as its parent. */
  lemma CollectedParents(log: Log, x: int, lo: nat, last: Option<int>, infos: seq<SignatureData>)
    requires log.Linked() && ContinuesAt(log, x, lo) && Collected(log, lo, last, infos)
    ensures forall j | 0 < j < |infos| :: infos[j].point.parent == infos[j - 1].point.index < infos[j].point.index
    ensures infos != [] && x != 0 ==> infos[0].point.parent == x < infos[0].point.index
  {
    forall j | 0 < j < |infos|
      ensures infos[j].point.parent == infos[j - 1].point.index < infos[j].point.index
    {
      assert InfoAt(log, lo, last, infos, j - 1) && InfoAt(log, lo, last, infos, j);
      assert log.PointLinked(lo + j);
    }
    if infos != [] && x != 0 {
      assert InfoAt(log, lo, last, infos, 0);
      assert log.PointLinked(lo);
    }
  }

  /** And no sync point within the answer is left out. */
  lemma CollectedComplete(log: Log, x: int, lo: nat, last: Option<int>, infos: seq<SignatureData>, i: int)
    requires log.Linked() && ContinuesAt(log, x, lo) && Collected(log, lo, last, infos)
    requires x == 0 || (log.InMemory(x) && x in log.points)
    ensures (exists j :: 0 <= j < |infos| && infos[j].point.index == i) <==> i in log.points && x < i && Within(i, last)
  {
    if i in log.points && x < i && Within(i, last) {
      var k :| 0 <= k < |log.points| && log.points[k] == i;
      assert lo <= k < lo + |infos|;
      assert InfoAt(log, lo, last, infos, k - lo);
    }
    if j :| 0 <= j < |infos| && infos[j].point.index == i {
      assert InfoAt(log, lo, last, infos, j);
    }
  }

  /** The lock certificate of the last locked entry, as an answer carries it. */
  ghost function LockInfo(log: Log): Option<SignatureData>
    requires log.Ordered() && !LockLost(log)
  {
    if log.locked == 0 then None
    else
      var b := log.At(log.locked);
      if b.lockedCert.None? || b.parent.None? then None
      else Some(SignatureData(SyncPoint(Sequenced, log.locked, b.chainingHash, 0, b.parent.value), b.lockedCert.value))
  }

  /** The last locked entry was finalized without ever having been locked by a certificate. */
  predicate LockLost(log: Log) {
    1 <= log.locked <= |log.entries| && log.At(log.locked).lockedCert.None?
  }

  /** A promotion brings this about exactly when it finalizes an index above the last locked one. */
  lemma LockLostExactly(net: Network, log: Log, data: SignatureData)
    requires net.Valid() && log.Valid() && Promote(net, log, data).0 == Promotes
    ensures LockLost(Promote(net, log, data).1) <==> data.point.state == Locked && data.point.index > log.locked
  {
    var r, i := Promote(net, log, data).1, data.point.index;
    assert log.LastFinalized() < i;
    if data.point.state == Locked && i > log.locked {
      assert r.At(r.locked).lockedCert == log.At(i).lockedCert;
    } else if data.point.state == Locked && i < log.locked {
      assert r.At(r.locked) == log.At(log.locked);
    }
  }

  /** The first sync point is where the list starts, but it is only on disk by now. */
  predicate FirstGone(log: Log, x: int, last: Option<int>) {
    x == 0 && log.points != [] && log.points[0] <= log.base && Within(log.points[0], last)
  }

  // ---- What the sequencer goes by ----

  /** What a node last reported about its log. */
  datatype NodeState = NodeState(sequencedIndex: int, sequencedHash: Hash, lockedIndex: int, lockedHash: Hash)

  /** Its log and what nodes have reported. */
  datatype Served = Served(log: Log, nodes: map<NodeId, NodeState>)

  /** A request appends its bodies, and its report is only recorded with an answer. */
  ghost predicate PutStep(s: Served, t: Served, request: Request) {
    && t.log == Append(s.log, request.bodies)
    && (t.nodes != s.nodes ==> !LockLost(t.log))
  }

  /** A round delivers at most two certificates, and none unless some attesting node has reported. */
  ghost predicate SyncStep(net: Network, s: Served, t: Served, locking: Option<SignatureData>,
                           finalizing: Option<SignatureData>)
    requires net.Valid()
  {
    && t.nodes == s.nodes
    && SameLog(t.log, Delivered(net, Delivered(net, s.log, locking), finalizing))
    && (s.nodes.Keys !! net.Ids() ==> locking.None? && finalizing.None?)
  }

  // ---- Answering ----

  /** Follow the next pointers; None stands for the KeyError at a sync point that is not in memory. */
  method CollectFinalized(db: InMemoryDB, first: Option<int>, last: Option<int>, ghost lo: nat)
    returns (infos: Option<seq<SignatureData>>)
    requires db.Valid() && db.AsLog().Valid()
    requires lo <= |db.AsLog().points|
    requires first == if lo < |db.AsLog().points| then Some(db.AsLog().points[lo]) else None
    ensures infos.None? <==>
            && lo < |db.AsLog().points|
            && Within(db.AsLog().points[lo], last)
            && !db.AsLog().InMemory(db.AsLog().points[lo])
    ensures infos.Some? ==> Collected(db.AsLog(), lo, last, infos.value)
  {
    ghost var log := db.AsLog();
    WindowOfLog(db.Picture());
    var next, list := first, [];
    while next.Some? && Within(next.value, last)
      invariant lo + |list| <= |log.points|
      invariant next == if lo + |list| < |log.points| then Some(log.points[lo + |list|]) else None
      invariant forall j :: 0 <= j < |list| ==> InfoAt(log, lo, last, list, j)
      invariant list != [] ==> log.InMemory(log.points[lo]) && Within(log.points[lo], last)
      decreases |log.points| - |list|
    {
      ghost var k := lo + |list|;
      assert log.PointLinked(k) && log.points[lo] <= log.points[k];
      var found := db.operational.View().Get(next.value);
      if found.None? {
        return None;
      }
      var batch := found.value;
      var info := SignatureData(SyncPoint(Locked, next.value, batch.chainingHash, batch.timestamp.value,
            batch.parent.value), batch.finalizedCert.value);
      InfoAdded(log, lo, last, list, info);
      list := list + [info];
      next := batch.next;
    }
    infos := Some(list);
  }

  lemma InfoAdded(log: Log, lo: nat, last: Option<int>, infos: seq<SignatureData>, info: SignatureData)
    requires log.Linked() && lo + |infos| < |log.points| && Within(log.points[lo + |infos|], last)
    requires forall j :: 0 <= j < |infos| ==> InfoAt(log, lo, last, infos, j)
    requires log.PointLinked(lo + |infos|) && info == log.PointData(log.points[lo + |infos|])
    ensures forall j :: 0 <= j <= |infos| ==> InfoAt(log, lo, last, infos + [info], j)
  {
    forall j | 0 <= j <= |infos|
      ensures InfoAt(log, lo, last, infos + [info], j)
    {
      assert j < |infos| ==> InfoAt(log, lo, last, infos, j);
    }
  }

  /** Where the list starts: the next pointer of the node's last finalized entry, or the first sync point. */
  method StartPointer(db: InMemoryDB, x: int) returns (first: Option<int>, ghost lo: nat)
    requires db.Valid() && db.AsLog().Valid()
    ensures IsNextPoint(db.AsLog(), x, first)
    ensures ContinuesAt(db.AsLog(), x, lo)
    ensures first == if lo < |db.AsLog().points| then Some(db.AsLog().points[lo]) else None
  {
    ghost var log := db.AsLog();
    WindowOfLog(db.Picture());
    lo := |log.points|;
    if x != 0 {
      var found := db.operational.View().Get(x);
      if found.None? {
        return None, lo;
      }
      first := found.value.next;
      assert log.PlainUnlinked(x);
      if k :| 0 <= k < |log.points| && log.points[k] == x {
        assert log.PointLinked(k);
        lo := k + 1;
      }
    } else {
      first, lo := db.firstFinalizedIndex, 0;
    }
    NextIsNextPoint(log, x, lo);
  }

  function Reported(request: Request): NodeState {
    NodeState(request.sequencedIndex, request.sequencedHash, request.lockedIndex, request.lockedHash)
  }

  /** A certificate, if there is one, delivered to the log. */
  function Delivered(net: Network, log: Log, data: Option<SignatureData>): Log
    requires net.Valid()
  {
    if data.None? then log else Promote(net, log, data.value).1
  }

  function ReportOf(node: NodeId, s: NodeState, locked: bool): Report {
    if locked then Report(node, s.lockedIndex, s.lockedHash) else Report(node, s.sequencedIndex, s.sequencedHash)
  }

  function PointFor(r: Report, locked: bool, timestamp: int, parent: int): SyncPoint {
    SyncPoint(if locked then Locked else Sequenced, r.index, r.chainingHash, timestamp, parent)
  }

  // ---- What a certificate is collected for, field by field ----

  /** The attesting nodes that reported to have sequenced up to an index. */
  ghost function SequencedUpTo(net: Network, nodes: map<NodeId, NodeState>, index: int): set<NodeId> {
    set n | n in nodes && n in net.Ids() && nodes[n].sequencedIndex >= index
  }

  ghost function LockedUpTo(net: Network, nodes: map<NodeId, NodeState>, index: int): set<NodeId> {
    set n | n in nodes && n in net.Ids() && nodes[n].lockedIndex >= index
  }

  /** They and the sequencer itself hold the threshold. */
  ghost predicate SequencedByEnough(net: Network, id: NodeId, nodes: map<NodeId, NodeState>, index: int)
    requires net.Total() != 0.0
  {
    Percent(net, net.StakeOf(SequencedUpTo(net, nodes, index)) + net.StakeOf({id})) >= net.threshold
  }

  ghost predicate LockedByEnough(net: Network, id: NodeId, nodes: map<NodeId, NodeState>, index: int)
    requires net.Total() != 0.0
  {
    Percent(net, net.StakeOf(LockedUpTo(net, nodes, index)) + net.StakeOf({id})) >= net.threshold
  }

  /** The lock of the greatest index that enough nodes have sequenced, with the hash one of them reported there. */
  ghost predicate ProposesLock(net: Network, id: NodeId, nodes: map<NodeId, NodeState>, last: int, parent: int,
                               p: SyncPoint)
  {
    && net.Total() > 0.0
    && p.state == Sequenced && p.timestamp == 0 && p.parent == parent && p.index > last
    && (exists n :: n in nodes && n in net.Ids()
                    && nodes[n].sequencedIndex == p.index && nodes[n].sequencedHash == p.chainingHash)
    && SequencedByEnough(net, id, nodes, p.index)
    && (forall n | n in nodes && n in net.Ids() :: nodes[n].sequencedIndex > p.index ==>
          !SequencedByEnough(net, id, nodes, nodes[n].sequencedIndex))
  }

  /** The finalization of the greatest index that enough nodes have locked, with the hash one of them reported there. */
  ghost predicate ProposesFinalization(net: Network, id: NodeId, nodes: map<NodeId, NodeState>, last: int, parent: int,
                                       now: int, p: SyncPoint)
  {
    && net.Total() > 0.0
    && p.state == Locked && p.timestamp == now && p.parent == parent && p.index > last
    && (exists n :: n in nodes && n in net.Ids()
                    && nodes[n].lockedIndex == p.index && nodes[n].lockedHash == p.chainingHash)
    && LockedByEnough(net, id, nodes, p.index)
    && (forall n | n in nodes && n in net.Ids() :: nodes[n].lockedIndex > p.index ==>
          !LockedByEnough(net, id, nodes, nodes[n].lockedIndex))
  }

  /** Nothing above the last one is sequenced by enough nodes, or those that are asked do not sign with enough stake. */
  ghost predicate NoLockCollected(net: Network, id: NodeId, nodes: map<NodeId, NodeState>, last: int, parent: int,
                                  replies: set<NodeId> -> Waves)
    requires net.Total() != 0.0
  {
    || (forall n | n in nodes && n in net.Ids() :: nodes[n].sequencedIndex > last ==>
          !SequencedByEnough(net, id, nodes, nodes[n].sequencedIndex))
    || (exists p :: ProposesLock(net, id, nodes, last, parent, p) &&
                    Percent(net, net.StakeOf({id}) + net.StakeOf(ValidRepliers(
                      replies(SequencedUpTo(net, nodes, p.index)), p))) < net.threshold)
  }

  ghost predicate NoFinalizationCollected(net: Network, id: NodeId, nodes: map<NodeId, NodeState>, last: int,
                                          parent: int, now: int, replies: set<NodeId> -> Waves)
    requires net.Total() != 0.0
  {
    || (forall n | n in nodes && n in net.Ids() :: nodes[n].lockedIndex > last ==>
          !LockedByEnough(net, id, nodes, nodes[n].lockedIndex))
    || (exists p :: ProposesFinalization(net, id, nodes, last, parent, now, p) &&
                    Percent(net, net.StakeOf({id}) + net.StakeOf(ValidRepliers(
                      replies(LockedUpTo(net, nodes, p.index)), p))) < net.threshold)
  }

  /** What was delivered only adds a sync point if it is a finalization. */
  lemma DeliveredPoints(net: Network, log: Log, data: Option<SignatureData>)
    requires net.Valid() && log.Ordered()
    ensures var r := Delivered(net, log, data);
      r.points == log.points ||
      (data.Some? && data.value.point.state == Locked && r.points == log.points + [data.value.point.index])
  {
  }

  /** Those who are asked for a chosen report could reach the threshold. */
  lemma EnoughAsked(net: Network, own: NodeId, all: set<Report>, last: int, r: Report)
    requires net.Total() > 0.0 && IsChosen(net, own, all, last, r)
    ensures Percent(net, net.StakeOf(PartyIn(all, r.index)) + net.StakeOf({own})) >= net.threshold
  {
  }

  class Sequencer {
    const id: NodeId
    const db: InMemoryDB
    var nodesState: map<NodeId, NodeState>
    /** The last indices certificates were collected for. */
    var lockedSyncPoint: int
    var finalizedSyncPoint: int

    constructor (id: NodeId, db: InMemoryDB)
      ensures this.id == id && this.db == db && nodesState == map[] && lockedSyncPoint == finalizedSyncPoint == 0
    {
      this.id, this.db, nodesState, lockedSyncPoint, finalizedSyncPoint := id, db, map[], 0, 0;
    }

    /** What the attesting nodes reported. */
    ghost function AllReports(locked: bool): set<Report>
      reads this`nodesState
    {
      set node | node in nodesState && node in db.net.Ids() :: ReportOf(node, nodesState[node], locked)
    }

    /** The reports, in no particular order. */
    method Reports(locked: bool) returns (reports: seq<Report>)
      ensures AsSet(reports) == AllReports(locked)
    {
      var rest := nodesState.Keys * db.net.Ids();
      reports := [];
      while rest != {}
        invariant rest <= nodesState.Keys * db.net.Ids()
        invariant forall x :: x in reports <==> x in AllReports(locked) && x.node !in rest
        decreases |rest|
      {
        var node :| node in rest;
        reports := reports + [ReportOf(node, nodesState[node], locked)];
        rest := rest - {node};
      }
    }

    /** What a certificate is collected for: the chosen report of the attesting nodes. */
    ghost predicate IsChoice(locked: bool, last: int, r: Report)
      reads this`nodesState
    {
      db.net.Total() > 0.0 && IsChosen(db.net, id, AllReports(locked), last, r)
    }

    /** The collected sync point is the chosen one, on top of a parent. */
    ghost predicate IsProposal(point: SyncPoint, locked: bool, last: int, timestamp: int, parent: int)
      reads this`nodesState
    {
      exists r :: IsChoice(locked, last, r) && point == PointFor(r, locked, timestamp, parent)
    }

    lemma ReportParties(index: int)
      ensures PartyIn(AllReports(false), index) == SequencedUpTo(db.net, nodesState, index)
      ensures PartyIn(AllReports(true), index) == LockedUpTo(db.net, nodesState, index)
    {
      forall n | n in nodesState && n in db.net.Ids()
        ensures ReportOf(n, nodesState[n], false) in AllReports(false)
        ensures ReportOf(n, nodesState[n], true) in AllReports(true)
      {
      }
    }

    lemma LockProposal(p: SyncPoint, last: int, parent: int)
      requires IsProposal(p, false, last, 0, parent)
      ensures ProposesLock(db.net, id, nodesState, last, parent, p)
    {
      var r :| IsChoice(false, last, r) && p == PointFor(r, false, 0, parent);
      ReportParties(p.index);
      assert r.node in nodesState;
      forall n | n in nodesState && n in db.net.Ids() && nodesState[n].sequencedIndex > p.index
        ensures !SequencedByEnough(db.net, id, nodesState, nodesState[n].sequencedIndex)
      {
        assert ReportOf(n, nodesState[n], false) in AllReports(false);
        ReportParties(nodesState[n].sequencedIndex);
      }
    }

    lemma FinalizationProposal(p: SyncPoint, last: int, parent: int, now: int)
      requires IsProposal(p, true, last, now, parent)
      ensures ProposesFinalization(db.net, id, nodesState, last, parent, now, p)
    {
      var r :| IsChoice(true, last, r) && p == PointFor(r, true, now, parent);
      ReportParties(p.index);
      assert r.node in nodesState;
      forall n | n in nodesState && n in db.net.Ids() && nodesState[n].lockedIndex > p.index
        ensures !LockedByEnough(db.net, id, nodesState, nodesState[n].lockedIndex)
      {
        assert ReportOf(n, nodesState[n], true) in AllReports(true);
        ReportParties(nodesState[n].lockedIndex);
      }
    }

    /** No report is chosen, so none above the last one is backed. */
    lemma NothingChosen(locked: bool, last: int, n: NodeId)
      requires db.net.Total() > 0.0 && forall r :: !IsChoice(locked, last, r)
      requires n in nodesState && n in db.net.Ids()
      ensures var s := nodesState[n];
        if locked then s.lockedIndex > last ==> !LockedByEnough(db.net, id, nodesState, s.lockedIndex)
        else s.sequencedIndex > last ==> !SequencedByEnough(db.net, id, nodesState, s.sequencedIndex)
    {
      var x := ReportOf(n, nodesState[n], locked);
      assert x in AllReports(locked);
      ReportParties(x.index);
      if x.index > last && Backed(db.net, id, AllReports(locked), x.index) {
        var r := SomeChosen(db.net, id, AllReports(locked), last, x);
        assert IsChoice(locked, last, r);
      }
    }

    lemma TooFewCollected(locked: bool, last: int, timestamp: int, parent: int, replies: set<NodeId> -> Waves,
                          r: Report)
      requires db.net.Total() > 0.0 && TooFewReplies(locked, last, timestamp, parent, replies, r)
      ensures !locked && timestamp == 0 ==> NoLockCollected(db.net, id, nodesState, last, parent, replies)
      ensures locked ==> NoFinalizationCollected(db.net, id, nodesState, last, parent, timestamp, replies)
    {
      var p := PointFor(r, locked, timestamp, parent);
      ReportParties(p.index);
      assert IsProposal(p, locked, last, timestamp, parent);
      if locked {
        FinalizationProposal(p, last, parent, timestamp);
      } else if timestamp == 0 {
        LockProposal(p, last, parent);
      }
    }

    /** Why nothing is collected, field by field. */
    lemma NothingCollected(locked: bool, last: int, timestamp: int, parent: int, replies: set<NodeId> -> Waves)
      requires db.net.Total() > 0.0
      requires (forall r :: !IsChoice(locked, last, r)) ||
               (exists r :: TooFewReplies(locked, last, timestamp, parent, replies, r))
      ensures !locked && timestamp == 0 ==> NoLockCollected(db.net, id, nodesState, last, parent, replies)
      ensures locked ==> NoFinalizationCollected(db.net, id, nodesState, last, parent, timestamp, replies)
    {
      if r :| TooFewReplies(locked, last, timestamp, parent, replies, r) {
        TooFewCollected(locked, last, timestamp, parent, replies, r);
      } else {
        forall n | n in nodesState && n in db.net.Ids() {
          NothingChosen(locked, last, n);
        }
      }
    }

    /** The nodes that were asked for the chosen one did not answer with enough stake. */
    ghost predicate TooFewReplies(locked: bool, last: int, timestamp: int, parent: int, replies: set<NodeId> -> Waves,
                                  r: Report)
      reads this`nodesState
    {
      && IsChoice(locked, last, r)
      && Percent(db.net, db.net.StakeOf({id}) + db.net.StakeOf(ValidRepliers(
           replies(PartyIn(AllReports(locked), r.index)), PointFor(r, locked, timestamp, parent)))) < db.net.threshold
    }

    /** Collect a certificate for the greatest index that enough nodes reported, if there is one. */
    method Collect(locked: bool, last: int, timestamp: int, parent: int, replies: set<NodeId> -> Waves)
      returns (data: Option<SignatureData>)
      requires db.net.Valid() && forall asked :: WavesFrom(replies(asked), asked)
      ensures data.Some? && !locked && timestamp == 0 ==>
                ProposesLock(db.net, id, nodesState, last, parent, data.value.point)
      ensures data.Some? && locked ==>
                ProposesFinalization(db.net, id, nodesState, last, parent, timestamp, data.value.point)
      ensures db.net.Total() > 0.0
      ensures data.None? && !locked && timestamp == 0 ==>
                NoLockCollected(db.net, id, nodesState, last, parent, replies)
      ensures data.None? && locked ==>
                NoFinalizationCollected(db.net, id, nodesState, last, parent, timestamp, replies)
      // As long as the sequencer has no report of its own, what it collects verifies.
      ensures data.Some? && id !in nodesState ==> Verify(db.net, data.value) == Accepts
    {
      var reports := Reports(locked);
      var found, party := FindSyncPoint(db.net, id, reports, last);
      if found.None? {
        assert forall r :: !IsChoice(locked, last, r);
        NothingCollected(locked, last, timestamp, parent, replies);
        return None;
      }
      assert IsChoice(locked, last, found.value);
      var point := PointFor(found.value, locked, timestamp, parent);
      EnoughAsked(db.net, id, AllReports(locked), last, found.value);
      var cert := GatherAndAggregate(db.net, id, point, party, replies(party));
      if cert.Some? {
        assert IsProposal(point, locked, last, timestamp, parent);
        if locked {
          FinalizationProposal(point, last, parent, timestamp);
        } else if timestamp == 0 {
          LockProposal(point, last, parent);
        }
        return Some(SignatureData(point, cert.value));
      }
      assert TooFewReplies(locked, last, timestamp, parent, replies, found.value);
      NothingCollected(locked, last, timestamp, parent, replies);
      return None;
    }

    /** One round: have the next index locked, if the last one is finalized, and the last locked one finalized. */
    method SyncApp(now: int, lockReplies: set<NodeId> -> Waves, finalReplies: set<NodeId> -> Waves)
      returns (locking: Option<SignatureData>, finalizing: Option<SignatureData>)
      requires db.Valid()
      requires forall asked :: WavesFrom(lockReplies(asked), asked) && WavesFrom(finalReplies(asked), asked)
      modifies this`lockedSyncPoint, this`finalizedSyncPoint
      modifies db`operational, db`firstFinalizedIndex, db`pruned, db`points, db.operational, db.snapshots
      ensures db.Valid()
      // The log changes by at most two promotions, both on top of what was finalized before.
      ensures SameLog(db.AsLog(), Delivered(db.net, Delivered(db.net, old(db.AsLog()), locking), finalizing))
      ensures SyncStep(db.net, Served(old(db.AsLog()), nodesState), Served(db.AsLog(), nodesState), locking, finalizing)
      ensures locking.Some? ==>
                ProposesLock(db.net, id, nodesState, old(lockedSyncPoint), old(db.AsLog()).LastFinalized(),
                             locking.value.point)
      ensures locking.Some? ==> old(db.AsLog()).locked == old(db.AsLog()).LastFinalized()
      ensures db.net.Total() > 0.0
      ensures locking.None? && old(db.AsLog()).locked == old(db.AsLog()).LastFinalized() ==>
                NoLockCollected(db.net, id, nodesState, old(lockedSyncPoint), old(db.AsLog()).LastFinalized(),
                                lockReplies)
      ensures finalizing.Some? ==>
                ProposesFinalization(db.net, id, nodesState, old(finalizedSyncPoint), old(db.AsLog()).LastFinalized(),
                                     now, finalizing.value.point)
      ensures finalizing.None? ==>
                NoFinalizationCollected(db.net, id, nodesState, old(finalizedSyncPoint),
                                        old(db.AsLog()).LastFinalized(), now, finalReplies)
      // So only the second one can finalize.
      ensures db.AsLog().points == old(db.AsLog()).points ||
              (finalizing.Some? && db.AsLog().points == old(db.AsLog()).points + [finalizing.value.point.index])
      // What is collected verifies, as long as the sequencer has no report of its own.
      ensures locking.Some? && id !in nodesState ==> Verify(db.net, locking.value) == Accepts
      ensures finalizing.Some? && id !in nodesState ==> Verify(db.net, finalizing.value) == Accepts
      // Indices that certificates are collected for only grow.
      ensures lockedSyncPoint == if locking.Some? then locking.value.point.index else old(lockedSyncPoint)
      ensures lockedSyncPoint >= old(lockedSyncPoint)
      ensures finalizedSyncPoint == if finalizing.Some? then finalizing.value.point.index else old(finalizedSyncPoint)
      ensures finalizedSyncPoint >= old(finalizedSyncPoint)
    {
      ghost var before := db.AsLog();
      WindowOfLog(db.Picture());
      var lastFinalized := db.operational.View().LastOr(Finalized, 0);
      locking := LockRound(lastFinalized, lockReplies);
      ghost var locked := db.AsLog();
      finalizing := FinalizeRound(lastFinalized, now, finalReplies);
      TwoDeliveries(db.net, before, locked, locking, finalizing);
    }

    method LockRound(lastFinalized: int, replies: set<NodeId> -> Waves) returns (locking: Option<SignatureData>)
      requires db.Valid() && lastFinalized == db.AsLog().LastFinalized()
      requires forall asked :: WavesFrom(replies(asked), asked)
      modifies this`lockedSyncPoint
      modifies db`operational, db`firstFinalizedIndex, db`pruned, db`points, db.operational, db.snapshots
      ensures db.Valid() && (db.operational == old(db.operational) || fresh(db.operational))
      ensures SameLog(db.AsLog(), Delivered(db.net, old(db.AsLog()), locking))
      ensures locking.Some? ==>
                ProposesLock(db.net, id, nodesState, old(lockedSyncPoint), old(db.AsLog()).LastFinalized(),
                             locking.value.point)
      ensures locking.Some? ==> old(db.AsLog()).locked == old(db.AsLog()).LastFinalized()
      ensures db.net.Total() > 0.0
      ensures locking.None? && old(db.AsLog()).locked == old(db.AsLog()).LastFinalized() ==>
                NoLockCollected(db.net, id, nodesState, old(lockedSyncPoint), old(db.AsLog()).LastFinalized(), replies)
      ensures db.AsLog().points == old(db.AsLog()).points
      ensures locking.Some? && id !in nodesState ==> Verify(db.net, locking.value) == Accepts
      ensures lockedSyncPoint == if locking.Some? then locking.value.point.index else old(lockedSyncPoint)
      ensures lockedSyncPoint >= old(lockedSyncPoint)
    {
      TotalPositive(db.net);
      WindowOfLog(db.Picture());
      locking := None;
      if db.operational.View().LastOr(Locked, 0) == lastFinalized {
        locking := Collect(false, lockedSyncPoint, 0, lastFinalized, replies);
      }
      DeliveredPoints(db.net, db.AsLog(), locking);
      lockedSyncPoint := Record(locking, lockedSyncPoint);
    }

    method FinalizeRound(lastFinalized: int, now: int, replies: set<NodeId> -> Waves)
      returns (finalizing: Option<SignatureData>)
      requires db.Valid() && forall asked :: WavesFrom(replies(asked), asked)
      modifies this`finalizedSyncPoint
      modifies db`operational, db`firstFinalizedIndex, db`pruned, db`points, db.operational, db.snapshots
      ensures db.Valid()
      ensures SameLog(db.AsLog(), Delivered(db.net, old(db.AsLog()), finalizing))
      ensures finalizing.Some? ==>
                ProposesFinalization(db.net, id, nodesState, old(finalizedSyncPoint), lastFinalized, now,
                                     finalizing.value.point)
      ensures db.net.Total() > 0.0
      ensures finalizing.None? ==>
                NoFinalizationCollected(db.net, id, nodesState, old(finalizedSyncPoint), lastFinalized, now, replies)
      ensures db.AsLog().points == old(db.AsLog()).points ||
              (finalizing.Some? && db.AsLog().points == old(db.AsLog()).points + [finalizing.value.point.index])
      ensures finalizing.Some? && id !in nodesState ==> Verify(db.net, finalizing.value) == Accepts
      ensures finalizedSyncPoint == if finalizing.Some? then finalizing.value.point.index else old(finalizedSyncPoint)
      ensures finalizedSyncPoint >= old(finalizedSyncPoint)
    {
      finalizing := Collect(true, finalizedSyncPoint, now, lastFinalized, replies);
      DeliveredPoints(db.net, db.AsLog(), finalizing);
      finalizedSyncPoint := Record(finalizing, finalizedSyncPoint);
    }

    /** Store a collected sync point and promote by it. */
    method Record(data: Option<SignatureData>, last: int) returns (index: int)
      requires db.Valid()
      modifies db`operational, db`firstFinalizedIndex, db`pruned, db`points, db.operational, db.snapshots
      ensures db.Valid() && (db.operational == old(db.operational) || fresh(db.operational))
      ensures SameLog(db.AsLog(), Delivered(db.net, old(db.AsLog()), data))
      ensures index == if data.Some? then data.value.point.index else last
    {
      index := last;
      if data.Some? {
        index := data.value.point.index;
        var outcome := db.PromoteBatches(data.value);
      }
    }

    /** Sequence a node's bodies and answer with what it is missing.  No response stands for a KeyError. */
    method PutBatches(node: NodeId, request: Request)
      returns (response: Option<Response>, ghost offered: seq<Body>, ghost lo: nat)
      requires db.Valid() && db.AsLog().Valid()
      modifies this, db.operational
      ensures db.Valid() && db.AsLog().Valid()
      // The node's bodies are appended whether or not an answer goes out.
      ensures db.AsLog() == Append(old(db.AsLog()), request.bodies)
      ensures Answers(db.AsLog(), db.snapshots.Ends(), db.receiveLimitKb, request, offered, lo, response)
      ensures nodesState ==
                if response.None? then old(nodesState)
                else old(nodesState)[node := NodeState(request.sequencedIndex, request.sequencedHash,
                                                       request.lockedIndex, request.lockedHash)]
      ensures PutStep(Served(old(db.AsLog()), old(nodesState)), Served(db.AsLog(), nodesState), request)
    {
      db.SequencerInitBatchBodies(request.bodies);
      AppendValid(old(db.AsLog()), request.bodies);
      response, offered, lo := Answer(request);
      if response.Some? {
        nodesState := nodesState[node := Reported(request)];
      }
    }

    method Answer(request: Request) returns (response: Option<Response>, ghost offered: seq<Body>, ghost lo: nat)
      requires db.Valid() && db.AsLog().Valid()
      ensures response.Some? ==>
                && Offers(db.AsLog(), db.snapshots.Ends(), db.receiveLimitKb, request.sequencedIndex,
                          response.value.bodies)
                && response.value.lastFinalized == db.AsLog().LastFinalized()
                && !LockLost(db.AsLog()) && response.value.lastLocked == LockInfo(db.AsLog())
      ensures Answers(db.AsLog(), db.snapshots.Ends(), db.receiveLimitKb, request, offered, lo, response)
    {
      var bodies, last := Offered(request.sequencedIndex);
      offered := bodies;
      var first;
      first, lo := StartPointer(db, request.finalizedIndex);
      NextInMemory(db.AsLog(), request.finalizedIndex, lo);
      var lost, lock := LastLockInfo();
      if lost {
        return None, offered, lo;
      }
      var infos := CollectFinalized(db, first, last, lo);
      if infos.None? {
        return None, offered, lo;
      }
      WindowOfLog(db.Picture());
      response := Some(Response(bodies, db.operational.View().LastOr(Finalized, 0), infos.value, lock));
    }

    method Offered(after: int) returns (bodies: seq<Body>, last: Option<int>)
      requires db.Valid()
      ensures Offers(db.AsLog(), db.snapshots.Ends(), db.receiveLimitKb, after, bodies)
      ensures last == LastOffered(after, bodies)
    {
      var sequence := db.GetGlobalOperationalBatchSequence(Sequenced, after);
      OfferedBodies(db.AsLog(), db.snapshots.Ends(), db.receiveLimitKb, after, sequence.View());
      bodies := Bodies(sequence.batches);
      last := if sequence.View().HasAny(Sequenced) then Some(sequence.View().LastOr(Sequenced, 0)) else None;
    }

    method LastLockInfo() returns (lost: bool, info: Option<SignatureData>)
      requires db.Valid() && db.AsLog().Valid()
      ensures lost <==> LockLost(db.AsLog())
      ensures !lost ==> info == LockInfo(db.AsLog())
    {
      ghost var log := db.AsLog();
      WindowOfLog(db.Picture());
      var locked := db.operational.View().LastOr(Locked, 0);
      if locked == 0 {
        return false, None;
      }
      if log.points != [] {
        assert log.PointLinked(|log.points| - 1);
      }
      var b := db.operational.View().Get(locked).value;
      if b.lockedCert.None? {
        return true, None;
      }
      return false, Some(SignatureData(SyncPoint(Sequenced, locked, b.chainingHash, 0, b.parent.value),
            b.lockedCert.value));
    }
  }

  /** What comes back for a request: bodies, certificates and indices taken from the log, or, exactly
      when the last lock certificate is missing or the first sync point has left memory, nothing. */
  ghost predicate Answers(log: Log, ends: seq<int>, limitKb: real, request: Request, offered: seq<Body>, lo: nat,
                          response: Option<Response>)
    requires log.Valid()
  {
    var last := LastOffered(request.sequencedIndex, offered);
    && Offers(log, ends, limitKb, request.sequencedIndex, offered)
    && ContinuesAt(log, request.finalizedIndex, lo)
    && (response.None? <==> LockLost(log) || FirstGone(log, request.finalizedIndex, last))
    && (response.Some? ==>
          && response.value.bodies == offered
          && response.value.lastFinalized == log.LastFinalized()
          && Collected(log, lo, last, response.value.finalized)
          && response.value.lastLocked == LockInfo(log))
  }

  /** Only the very first sync point can be out of memory when a list starts there. */
  lemma NextInMemory(log: Log, x: int, lo: nat)
    requires log.Valid() && ContinuesAt(log, x, lo)
    ensures lo < |log.points| && !log.InMemory(log.points[lo]) <==>
              x == 0 && log.points != [] && log.points[0] <= log.base
  {
  }

  lemma TwoDeliveries(net: Network, before: Log, locked: Log, locking: Option<SignatureData>,
                      finalizing: Option<SignatureData>)
    requires net.Valid() && before.Ordered() && locked.Ordered()
    requires SameLog(locked, Delivered(net, before, locking))
    ensures var both := Delivered(net, Delivered(net, before, locking), finalizing);
      Delivered(net, locked, finalizing) == both.(base := Delivered(net, locked, finalizing).base)
  {
    if locking.Some? {
      PromoteIgnoresBase(net, before, before.base, locking.value);
    }
    if finalizing.Some? {
      PromoteIgnoresBase(net, Delivered(net, before, locking), locked.base, finalizing.value);
    }
  }

  lemma OfferedBodies(log: Log, ends: seq<int>, limitKb: real, after: int, read: Run)
    requires log.Ordered() && IsReadOf(log, ends, Sequenced, after, limitKb, read)
    ensures Offers(log, ends, limitKb, after, Bodies(read.batches))
    ensures LastOffered(after, Bodies(read.batches)) ==
              if read.HasAny(Sequenced) then Some(read.LastOr(Sequenced, 0)) else None
  {
    CopiesBodies(read.batches, Wanted(log, Sequenced, after));
  }
}
