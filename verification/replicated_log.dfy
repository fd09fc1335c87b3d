// The log a node keeps for one app, as one unbounded list: what the in-memory database
// (common/db.py) does to it, and what every sequence of those operations keeps.

module ReplicatedLog {
  import opened Batches
  import opened Certificates

  /** Entry i (counted from 1) is entries[i - 1].  The first base entries are no longer in memory;
      points are the finalized sync points, oldest first; locked is the last locked index. */
  datatype Log = Log(entries: seq<Batch>, base: nat, points: seq<int>, locked: int) {

    function LastFinalized(): int {
      if points == [] then 0 else points[|points| - 1]
    }

    function At(i: int): Batch
      requires 1 <= i <= |entries|
    {
      entries[i - 1]
    }

    predicate InMemory(i: int) {
      base < i <= |entries|
    }

    function StateOf(i: int): State {
      if i <= LastFinalized() then Finalized else if i <= locked then Locked else Sequenced
    }

    /** finalized <= locked <= last, and the last finalized entry has not been pruned. */
    ghost predicate Ordered() {
      && 0 <= LastFinalized() <= locked <= |entries|
      && (points != [] ==> LastFinalized() > 0)
      && (base > 0 ==> base < LastFinalized())
    }

    ghost predicate IsPoint(i: int) {
      1 <= i <= |entries| && At(i).finalizedCert.Some?
    }

    ghost predicate PointsOrdered() {
      && (forall k | 0 <= k < |points| :: 1 <= points[k] <= |entries|)
      && (forall j, k | 0 <= j < k < |points| :: points[j] < points[k])
    }

    /** Sync point k carries its finalization certificate, points to the next one and back to the previous one. */
    ghost predicate PointLinked(k: nat)
      requires PointsOrdered() && k < |points|
    {
      var batch := At(points[k]);
      && batch.finalizedCert.Some? && batch.parent.Some? && batch.timestamp.Some?
      && batch.next == (if k + 1 < |points| then Some(points[k + 1]) else None)
      && (k > 0 ==> batch.parent == Some(points[k - 1]))
    }

    /** An entry that is not a sync point carries neither certificate nor pointer. */
    ghost predicate PlainUnlinked(i: int)
      requires 1 <= i <= |entries|
    {
      i !in points ==> At(i).finalizedCert.None? && At(i).next.None?
    }

    /** The pointers stored in the entries spell out the list of sync points. */
    ghost predicate Linked() {
      && PointsOrdered()
      && (forall k :: 0 <= k < |points| ==> PointLinked(k))
      && (forall i :: 1 <= i <= |entries| ==> PlainUnlinked(i))
    }

    /** Above the last finalized entry only the last locked one carries a lock certificate. */
    ghost predicate LockMarked()
      requires Ordered()
    {
      && (locked > LastFinalized() ==>
          At(locked).lockedCert.Some? && At(locked).parent.Some? && At(locked).timestamp.Some?)
      && (forall i | LastFinalized() < i <= |entries| :: At(i).lockedCert.Some? ==> i == locked)
    }

    ghost predicate Valid() {
      Ordered() && Chained(entries) && Linked() && LockMarked()
    }

    /** The finalization certificate stored with a sync point. */
    ghost function PointData(i: int): SignatureData
      requires 1 <= i <= |entries| && At(i).finalizedCert.Some? && At(i).parent.Some? && At(i).timestamp.Some?
    {
      SignatureData(SyncPoint(Locked, i, At(i).chainingHash, At(i).timestamp.value, At(i).parent.value),
                    At(i).finalizedCert.value)
    }

    /** Every sync point is backed by the certificate that is stored with it. */
    ghost predicate Certified(net: Network)
      requires net.Valid()
    {
      forall i :: 1 <= i <= |entries| && At(i).finalizedCert.Some? ==> PointCertified(net, i)
    }

    ghost predicate PointCertified(net: Network, i: int)
      requires net.Valid() && 1 <= i <= |entries| && At(i).finalizedCert.Some?
    {
      At(i).parent.Some? && At(i).timestamp.Some? && Verify(net, PointData(i)) == Accepts
    }
  }

  const EMPTY_LOG := Log([], 0, [], 0)

  /** Both append routines: number, chain and store the bodies one after the other. */
  function Append(log: Log, bodies: seq<Body>): (r: Log)
    ensures |r.entries| == |log.entries| + |bodies| && log.entries <= r.entries
    ensures r == log.(entries := r.entries)
  {
    if bodies == [] then log
    else
      var most := Append(log, bodies[..|bodies| - 1]);
      var body := bodies[|bodies| - 1];
      most.(entries := most.entries + [NewBatch(body, LinkHash(LastHash(most.entries), BodyHash(body)))])
  }

  /** What promote_batches comes to: done, declined with a warning, or an exception. */
  datatype Outcome = Promotes | Declines | Throws

  function Promote(net: Network, log: Log, data: SignatureData): (Outcome, Log)
    requires net.Valid()
  {
    var p := data.point;
    if p.state != Sequenced && p.state != Locked then (Declines, log)
    else if Verify(net, data) == Raises then (Throws, log)
    else if Verify(net, data) == Refuses then (Declines, log)
    else
      var target := if p.state == Sequenced then Locked else Finalized;
      var last := if target == Locked then log.locked else log.LastFinalized();
      if last != 0 && p.index <= last then (Declines, log)
      else if log.LastFinalized() != 0 && p.parent != log.LastFinalized() then (Declines, log)
      else if target == Locked && log.locked != 0 && log.locked != log.LastFinalized() then (Declines, log)
      else if !log.InMemory(p.index) then (Declines, log)
      else if p.index < 1 || p.chainingHash != log.At(p.index).chainingHash then (Declines, log)
      else if target == Locked then (Promotes, WithLock(log, data))
      else (Promotes, WithFinalization(log, data))
  }

  function WithLock(log: Log, data: SignatureData): Log
    requires 1 <= data.point.index <= |log.entries|
  {
    var i := data.point.index;
    var marked := log.At(i).(parent := Some(data.point.parent), lockedCert := Some(data.cert),
          timestamp := Some(data.point.timestamp));
    log.(entries := log.entries[i - 1 := marked], locked := Max(log.locked, i))
  }

  /** The entries once the previous sync point, if any, points to the new one. */
  function LinkedTo(entries: seq<Batch>, previous: int, i: int): seq<Batch> {
    if 1 <= previous <= |entries| then entries[previous - 1 := entries[previous - 1].(next := Some(i))] else entries
  }

  function WithFinalization(log: Log, data: SignatureData): Log
    requires 1 <= data.point.index <= |log.entries|
  {
    var i := data.point.index;
    var entries := LinkedTo(log.entries, log.LastFinalized(), i);
    var marked := entries[i - 1].(parent := Some(data.point.parent), finalizedCert := Some(data.cert),
          timestamp := Some(data.point.timestamp));
    log.(entries := entries[i - 1 := marked], points := log.points + [i], locked := Max(log.locked, i))
  }

  /** reinitialize_sequenced_batches: what is left of the log, and the bodies that go back to pending. */
  function Reset(log: Log): Log
    requires 0 <= log.locked <= |log.entries|
  {
    log.(entries := log.entries[..log.locked])
  }

  function ResetBodies(log: Log): seq<Body>
    requires 0 <= log.locked <= |log.entries|
  {
    Bodies(log.entries[log.locked..])
  }

  /** Dropping entries from memory up to a border below the last finalized one. */
  function Prune(log: Log, border: nat): Log {
    if log.base < border < log.LastFinalized() then log.(base := border) else log
  }

  /** Everything that can happen to a log. */
  datatype Action = Appending(bodies: seq<Body>) | Delivering(data: SignatureData) | Switching | Pruning(border: nat)

  function Apply(net: Network, log: Log, action: Action): Log
    requires net.Valid() && log.Ordered()
  {
    match action
    case Appending(bodies) => Append(log, bodies)
    case Delivering(data) => Promote(net, log, data).1
    case Switching => Reset(log)
    case Pruning(border) => Prune(log, border)
  }

  // ---- The invariant survives every action ----

  lemma ChainAppend(entries: seq<Batch>, body: Body)
    requires Chained(entries)
    ensures Chained(entries + [NewBatch(body, LinkHash(LastHash(entries), BodyHash(body)))])
  {
    var r := entries + [NewBatch(body, LinkHash(LastHash(entries), BodyHash(body)))];
    assert forall i | 0 <= i < |entries| :: r[i] == entries[i] && HashBefore(r, i) == HashBefore(entries, i);
  }

  /** Rewriting anything but body and chaining hash keeps the chain, and so does dropping a suffix. */
  lemma SameChain(a: seq<Batch>, b: seq<Batch>)
    requires Chained(a) && |a| >= |b|
    requires forall i | 0 <= i < |b| :: a[i].body == b[i].body && a[i].chainingHash == b[i].chainingHash
    ensures Chained(b)
  {
    assert forall i | 0 <= i < |b| :: HashBefore(a, i) == HashBefore(b, i);
  }

  /** The links survive a change that touches no sync point and adds none. */
  lemma LinksKept(log: Log, r: Log)
    requires log.Linked()
    requires r.points == log.points && forall k | 0 <= k < |r.points| :: r.points[k] <= |r.entries|
    requires forall i | 1 <= i <= |log.entries| && i <= |r.entries| ::
               && r.At(i).finalizedCert == log.At(i).finalizedCert && r.At(i).next == log.At(i).next
               && (log.At(i).finalizedCert.Some? ==>
                   r.At(i).parent == log.At(i).parent && r.At(i).timestamp == log.At(i).timestamp)
    requires forall i | |log.entries| < i <= |r.entries| :: r.At(i).finalizedCert == None && r.At(i).next == None
    ensures r.Linked()
  {
    forall k | 0 <= k < |r.points|
      ensures r.PointLinked(k)
    {
      assert log.PointLinked(k);
    }
    forall i | 1 <= i <= |r.entries|
      ensures r.PlainUnlinked(i)
    {
      if i <= |log.entries| {
        assert log.PlainUnlinked(i);
      }
    }
  }

  lemma AppendOneValid(log: Log, body: Body)
    requires log.Valid()
    ensures log.(entries := log.entries + [NewBatch(body, LinkHash(LastHash(log.entries), BodyHash(body)))]).Valid()
  {
    var r := log.(entries := log.entries + [NewBatch(body, LinkHash(LastHash(log.entries), BodyHash(body)))]);
    ChainAppend(log.entries, body);
    assert forall i | 1 <= i <= |log.entries| :: r.At(i) == log.At(i);
    LinksKept(log, r);
  }

  lemma {:induction false} AppendValid(log: Log, bodies: seq<Body>)
    requires log.Valid()
    ensures Append(log, bodies).Valid()
  {
    if bodies != [] {
      AppendValid(log, bodies[..|bodies| - 1]);
      AppendOneValid(Append(log, bodies[..|bodies| - 1]), bodies[|bodies| - 1]);
    }
  }

  lemma AboveFinalizedIsPlain(log: Log)
    requires log.Linked()
    ensures forall k | 0 <= k < |log.points| :: log.points[k] <= log.LastFinalized()
    ensures forall i | log.LastFinalized() < i <= |log.entries| :: log.At(i).finalizedCert.None? && log.At(i).next.None?
  {
    forall i | log.LastFinalized() < i <= |log.entries|
      ensures log.At(i).finalizedCert.None? && log.At(i).next.None?
    {
      assert log.PlainUnlinked(i);
    }
  }

  lemma LockValid(log: Log, data: SignatureData)
    requires log.Valid()
    requires log.LastFinalized() == log.locked < data.point.index <= |log.entries|
    ensures WithLock(log, data).Valid()
  {
    LockChained(log, data);
    LockLinked(log, data);
    LockLockMarked(log, data);
  }

  lemma LockChained(log: Log, data: SignatureData)
    requires Chained(log.entries)
    requires 1 <= data.point.index <= |log.entries|
    ensures Chained(WithLock(log, data).entries)
  {
    SameChain(log.entries, WithLock(log, data).entries);
  }

  lemma LockLinked(log: Log, data: SignatureData)
    requires log.Ordered() && log.Linked()
    requires log.LastFinalized() == log.locked < data.point.index <= |log.entries|
    ensures WithLock(log, data).Linked()
  {
    AboveFinalizedIsPlain(log);
    assert log.At(data.point.index).finalizedCert.None?;
    LinksKept(log, WithLock(log, data));
  }

  lemma LockLockMarked(log: Log, data: SignatureData)
    requires log.Ordered() && log.LockMarked()
    requires log.LastFinalized() == log.locked < data.point.index <= |log.entries|
    ensures WithLock(log, data).Ordered() && WithLock(log, data).LockMarked()
  {
    var r, i := WithLock(log, data), data.point.index;
    assert forall j | 1 <= j <= |log.entries| && j != i :: r.At(j) == log.At(j);
  }

  lemma FinalizationValid(log: Log, data: SignatureData)
    requires log.Valid()
    requires log.LastFinalized() < data.point.index <= |log.entries|
    requires log.LastFinalized() != 0 ==> data.point.parent == log.LastFinalized()
    ensures WithFinalization(log, data).Valid()
  {
    assert Chained(WithFinalization(log, data).entries) by {
      FinalizationChained(log, data);
    }
    FinalizationLinked(log, data);
    FinalizationLockMarked(log, data);
  }

  lemma FinalizationChained(log: Log, data: SignatureData)
    requires Chained(log.entries)
    requires 1 <= data.point.index <= |log.entries|
    ensures Chained(WithFinalization(log, data).entries)
  {
    SameChain(log.entries, WithFinalization(log, data).entries);
  }

  lemma FinalizationOrdered(log: Log, data: SignatureData)
    requires log.Ordered()
    requires log.LastFinalized() < data.point.index <= |log.entries|
    ensures WithFinalization(log, data).Ordered()
    ensures WithFinalization(log, data).LastFinalized() == data.point.index
  {
    assert WithFinalization(log, data).points[|log.points|] == data.point.index;
  }

  lemma FinalizationLockMarked(log: Log, data: SignatureData)
    requires log.Ordered() && log.LockMarked()
    requires log.LastFinalized() < data.point.index <= |log.entries|
    ensures WithFinalization(log, data).Ordered() && WithFinalization(log, data).LockMarked()
  {
    var r, i := WithFinalization(log, data), data.point.index;
    assert forall j | i < j <= |log.entries| :: r.At(j) == log.At(j);
  }

  lemma FinalizationLinked(log: Log, data: SignatureData)
    requires log.Ordered() && log.Linked()
    requires log.LastFinalized() < data.point.index <= |log.entries|
    requires log.LastFinalized() != 0 ==> data.point.parent == log.LastFinalized()
    ensures WithFinalization(log, data).Linked()
  {
    var r, i, f := WithFinalization(log, data), data.point.index, log.LastFinalized();
    var n := |log.points|;
    AboveFinalizedIsPlain(log);
    assert forall j | 1 <= j <= |log.entries| && j != i && j != f :: r.At(j) == log.At(j);
    assert f != 0 ==> r.At(f) == log.At(f).(next := Some(i));
    assert r.points[n] == i && forall k | 0 <= k < n :: r.points[k] == log.points[k] < i;
    assert r.At(i).next == None by {
      assert log.At(i).next == None && LinkedTo(log.entries, f, i)[i - 1] == log.At(i);
    }
    forall k | 0 <= k < |r.points|
      ensures r.PointLinked(k)
    {
      if k < n {
        assert log.PointLinked(k);
        assert k < n - 1 ==> log.points[k] < f;
        assert k == n - 1 ==> r.points[k] == f;
      }
    }
    forall j | 1 <= j <= |r.entries|
      ensures r.PlainUnlinked(j)
    {
      assert log.PlainUnlinked(j);
      assert j in log.points ==> j in r.points;
      assert f != 0 ==> r.points[n - 1] == f;
    }
  }

  lemma ResetValid(log: Log)
    requires log.Valid()
    ensures Reset(log).Valid()
  {
    var r := Reset(log);
    SameChain(log.entries, r.entries);
    AboveFinalizedIsPlain(log);
    LinksKept(log, r);
  }

  lemma PromoteValid(net: Network, log: Log, data: SignatureData)
    requires net.Valid() && log.Valid()
    ensures Promote(net, log, data).1.Valid()
  {
    if Promote(net, log, data).0 == Promotes {
      if data.point.state == Sequenced {
        LockValid(log, data);
      } else {
        FinalizationValid(log, data);
      }
    }
  }

  /** Every operation keeps the log valid, whatever certificates arrive in whatever order. */
  lemma ApplyValid(net: Network, log: Log, action: Action)
    requires net.Valid() && log.Valid()
    ensures Apply(net, log, action).Valid()
  {
    match action
    case Appending(bodies) => AppendValid(log, bodies);
    case Delivering(data) => PromoteValid(net, log, data);
    case Switching => ResetValid(log);
    case Pruning(border) =>
      var r := Prune(log, border);
      assert forall i | 1 <= i <= |log.entries| :: r.At(i) == log.At(i);
      LinksKept(log, r);
  }

  /** a is b, except that more or less of it may be in memory. */
  ghost predicate SameLog(a: Log, b: Log) {
    a == b.(base := a.base)
  }

  /** Promotion does not depend on how much has been pruned, and keeps the order of the last indices. */
  lemma PromoteIgnoresBase(net: Network, log: Log, base: nat, data: SignatureData)
    requires net.Valid() && log.Ordered() && log.(base := base).Ordered()
    ensures Promote(net, log.(base := base), data) ==
            (Promote(net, log, data).0, Promote(net, log, data).1.(base := base))
    ensures Promote(net, log, data).1.Ordered()
  {
    if Promote(net, log, data).0 == Promotes && data.point.state == Locked {
      FinalizationOrdered(log, data);
    }
  }

  /** Operations also keep every sync point backed by a certificate that verifies. */
  lemma ApplyCertified(net: Network, log: Log, action: Action)
    requires net.Valid() && log.Valid() && log.Certified(net)
    ensures Apply(net, log, action).Certified(net)
  {
    match action
    case Appending(bodies) => AppendCertified(net, log, bodies);
    case Delivering(data) => PromoteCertified(net, log, data);
    case _ =>
      var r := Apply(net, log, action);
      forall i | 1 <= i <= |r.entries| && r.At(i).finalizedCert.Some?
        ensures r.PointCertified(net, i)
      {
        assert r.At(i) == log.At(i) && log.PointCertified(net, i);
      }
  }

  lemma {:induction false} AppendCertified(net: Network, log: Log, bodies: seq<Body>)
    requires net.Valid() && log.Certified(net)
    ensures Append(log, bodies).Certified(net)
  {
    if bodies != [] {
      var most, r := Append(log, bodies[..|bodies| - 1]), Append(log, bodies);
      AppendCertified(net, log, bodies[..|bodies| - 1]);
      forall i | 1 <= i <= |r.entries| && r.At(i).finalizedCert.Some?
        ensures r.PointCertified(net, i)
      {
        assert r.At(i) == most.At(i) && most.PointCertified(net, i);
      }
    }
  }

  lemma PromoteCertified(net: Network, log: Log, data: SignatureData)
    requires net.Valid() && log.Valid() && log.Certified(net)
    ensures Promote(net, log, data).1.Certified(net)
  {
    var r := Promote(net, log, data).1;
    if Promote(net, log, data).0 == Promotes {
      AboveFinalizedIsPlain(log);
      forall i | 1 <= i <= |r.entries| && r.At(i).finalizedCert.Some?
        ensures r.PointCertified(net, i)
      {
        if i == data.point.index {
          assert log.At(i).finalizedCert.None?;
          assert r.PointData(i) == data;
        } else {
          assert log.PointCertified(net, i) && r.PointData(i) == log.PointData(i);
        }
      }
    }
  }

  // ---- What no operation takes back ----

  /** Everything locked in a is still there in b, nothing moved to an earlier state, and the
      sync points of b continue those of a. */
  ghost predicate Endures(a: Log, b: Log) {
    && a.locked <= b.locked && a.locked <= |a.entries| && a.locked <= |b.entries|
    && a.points <= b.points
    && a.base <= b.base
    && (forall i :: 1 <= i <= a.locked ==> EntryEndures(a, b, i))
  }

  ghost predicate EntryEndures(a: Log, b: Log, i: int)
    requires 1 <= i <= |a.entries| && i <= |b.entries|
  {
    && b.At(i).body == a.At(i).body
    && b.At(i).chainingHash == a.At(i).chainingHash
    && a.StateOf(i).BeforeOrEqual(b.StateOf(i))
    && (a.At(i).finalizedCert.Some? ==>
          && b.At(i).finalizedCert == a.At(i).finalizedCert
          && b.At(i).parent == a.At(i).parent
          && b.At(i).timestamp == a.At(i).timestamp)
  }

  lemma EnduresTransitive(a: Log, b: Log, c: Log)
    requires Endures(a, b) && Endures(b, c)
    ensures Endures(a, c)
  {
    forall i | 1 <= i <= a.locked
      ensures EntryEndures(a, c, i)
    {
      assert EntryEndures(a, b, i) && EntryEndures(b, c, i);
    }
  }

  lemma PromoteEndures(net: Network, log: Log, data: SignatureData)
    requires net.Valid() && log.Valid()
    ensures Endures(log, Promote(net, log, data).1)
  {
    var r := Promote(net, log, data).1;
    if Promote(net, log, data).0 == Promotes {
      AboveFinalizedIsPlain(log);
      assert log.At(data.point.index).finalizedCert.None?;
      forall i | 1 <= i <= log.locked
        ensures EntryEndures(log, r, i)
      {
      }
    }
  }

  lemma ApplyEndures(net: Network, log: Log, action: Action)
    requires net.Valid() && log.Valid()
    ensures Endures(log, Apply(net, log, action))
  {
    match action
    case Delivering(data) => PromoteEndures(net, log, data);
    case _ =>
      var r := Apply(net, log, action);
      assert forall i | 1 <= i <= log.locked :: r.At(i) == log.At(i);
  }

  /** A run of a node: the log after each action. */
  ghost predicate IsRun(net: Network, run: seq<Log>, actions: seq<Action>)
    requires net.Valid()
  {
    && |run| == |actions| + 1
    && run[0] == EMPTY_LOG
    && (forall k | 0 <= k < |actions| :: run[k].Valid() ==> run[k + 1] == Apply(net, run[k], actions[k]))
  }

  lemma EmptyLogValid()
    ensures EMPTY_LOG.Valid()
  {
  }

  lemma {:induction false} RunValid(net: Network, run: seq<Log>, actions: seq<Action>, k: nat)
    requires net.Valid() && IsRun(net, run, actions) && k < |run|
    ensures run[k].Valid()
  {
    if k == 0 {
      EmptyLogValid();
    } else {
      RunValid(net, run, actions, k - 1);
      ApplyValid(net, run[k - 1], actions[k - 1]);
      assert run[k - 1 + 1] == Apply(net, run[k - 1], actions[k - 1]);
    }
  }

  /** Over any run, whatever was locked at one moment is intact at every later moment. */
  lemma {:induction false} LockedPrefixDurable(net: Network, run: seq<Log>, actions: seq<Action>, j: nat, k: nat)
    requires net.Valid() && IsRun(net, run, actions) && j <= k < |run|
    ensures run[j].Valid() && run[k].Valid() && Endures(run[j], run[k])
    decreases k - j
  {
    RunValid(net, run, actions, j);
    RunValid(net, run, actions, k);
    if j < k {
      LockedPrefixDurable(net, run, actions, j, k - 1);
      ApplyEndures(net, run[k - 1], actions[k - 1]);
      assert run[k - 1 + 1] == Apply(net, run[k - 1], actions[k - 1]);
      EnduresTransitive(run[j], run[k - 1], run[k]);
    } else {
      assert forall i | 1 <= i <= run[j].locked :: EntryEndures(run[j], run[k], i);
    }
  }

  // ---- What the pointers mean ----

  /** Following parent and then next leads back, pointers increase, and no sync point is skipped. */
  lemma PointersInverse(log: Log, x: int)
    requires log.Valid() && log.IsPoint(x) && log.points != [] && x != log.points[0]
    ensures log.At(x).parent.Some?
    ensures var p := log.At(x).parent.value;
      p < x && log.IsPoint(p) && log.At(p).next == Some(x) && forall y | p < y < x :: !log.IsPoint(y)
  {
    assert log.PlainUnlinked(x);
    var k :| 0 <= k < |log.points| && log.points[k] == x;
    assert log.PointLinked(k) && log.PointLinked(k - 1);
    forall y | log.points[k - 1] < y < x
      ensures !log.IsPoint(y)
    {
      NoneBetween(log.points, k, y);
      assert log.PlainUnlinked(y);
    }
  }

  lemma NoneBetween(points: seq<int>, k: nat, y: int)
    requires 0 < k < |points| && points[k - 1] < y < points[k]
    requires forall i, j | 0 <= i < j < |points| :: points[i] < points[j]
    ensures y !in points
  {
    assert forall j | 0 <= j < |points| :: points[j] <= points[k - 1] || points[j] >= points[k];
  }

  /** An entry is locked by a certificate and not finalized yet. */
  ghost predicate OpenLock(log: Log, i: int) {
    1 <= i <= |log.entries| && log.LastFinalized() < i && log.At(i).lockedCert.Some?
  }

  /** At every step of every run there is at most one open lock, and it is at the last locked index. */
  lemma AtMostOneOpenLock(net: Network, run: seq<Log>, actions: seq<Action>, k: nat, i: int)
    requires net.Valid() && IsRun(net, run, actions) && k < |run|
    ensures OpenLock(run[k], i) <==> run[k].LastFinalized() < i == run[k].locked
  {
    RunValid(net, run, actions, k);
  }

  /** Which certificates a log accepts: those that verify and name a batch in memory by its hash, on top of what is
      finalized; a lock if nothing is locked and waiting to be finalized, a finalization if it is a new one. */
  lemma PromotesExactly(net: Network, log: Log, data: SignatureData)
    requires net.Valid() && log.Valid()
    ensures var p := data.point;
      Promote(net, log, data).0 == Promotes <==>
        && Verify(net, data) == Accepts
        && log.InMemory(p.index) && log.At(p.index).chainingHash == p.chainingHash
        && (log.points == [] || p.parent == log.points[|log.points| - 1])
        && if p.state == Sequenced then p.index > log.locked && forall i :: !OpenLock(log, i)
           else p.state == Locked && forall x | x in log.points :: x < p.index
    ensures Promote(net, log, data).0 == Throws <==>
            && (data.point.state == Sequenced || data.point.state == Locked)
            && exists id :: id in data.cert.nonsigners && id !in net.Ids()
    ensures Promote(net, log, data).0 != Promotes ==> Promote(net, log, data).1 == log
  {
    AcceptsExactly(net, data);
    AboveFinalizedIsPlain(log);
    assert log.locked > log.LastFinalized() ==> OpenLock(log, log.locked);
    assert log.points != [] ==> log.points[|log.points| - 1] in log.points;
  }

  /** What a promotion stores at every index: the sync point's parent, time and certificate at its own, and its index
      as the next of the sync point before it; nothing else changes. */
  lemma PromotedExactly(net: Network, log: Log, data: SignatureData, i: int)
    requires net.Valid() && log.Valid() && Promote(net, log, data).0 == Promotes && 1 <= i <= |log.entries|
    ensures |Promote(net, log, data).1.entries| == |log.entries|
    ensures var p, before, after := data.point, log.At(i), Promote(net, log, data).1.At(i);
      && after.body == before.body && after.chainingHash == before.chainingHash
      && after.parent == (if i == p.index then Some(p.parent) else before.parent)
      && after.timestamp == (if i == p.index then Some(p.timestamp) else before.timestamp)
      && after.lockedCert == (if i == p.index && p.state == Sequenced then Some(data.cert) else before.lockedCert)
      && after.finalizedCert == (if i == p.index && p.state == Locked then Some(data.cert) else before.finalizedCert)
      && after.next == if p.state == Locked && i == log.LastFinalized() then Some(p.index) else before.next
    ensures var p, r := data.point, Promote(net, log, data).1;
      && r.points == (if p.state == Locked then log.points + [p.index] else log.points)
      && r.locked == (if p.index > log.locked then p.index else log.locked)
      && r.base == log.base
  {
  }

  /** Two valid logs with the same chaining hash at an index hold the same bodies up to it. */
  lemma SameHashSameBodies(a: Log, b: Log, i: int)
    requires a.Valid() && b.Valid()
    requires 1 <= i <= |a.entries| && i <= |b.entries|
    requires a.At(i).chainingHash == b.At(i).chainingHash
    ensures Bodies(a.entries[..i]) == Bodies(b.entries[..i])
  {
    SameChain(a.entries, a.entries[..i]);
    SameChain(b.entries, b.entries[..i]);
    ChainedMeaning(a.entries[..i]);
    ChainedMeaning(b.entries[..i]);
    ChainHashInjective(Bodies(a.entries[..i]), Bodies(b.entries[..i]));
  }
}
