// The follower's side (node/tasks.py): sending bodies, applying the sequencer's answers, and
// deciding what to sign.

module Followers {
  import opened Batches
  import opened BatchSequences
  import opened Certificates
  import opened ReplicatedLog
  import opened Agreement
  import opened Images
  import opened Database
  import opened Sequencers

  // ---- Applying an answer, on the log ----

  /** Finalize from position j on, until one certificate is not accepted. */
  function FinalizeFrom(net: Network, log: Log, infos: seq<SignatureData>, j: nat): (Outcome, Log)
    requires net.Valid() && j <= |infos|
    decreases |infos| - j
  {
    if j == |infos| then (Promotes, log)
    else
      var step := Promote(net, log, infos[j]);
      if step.0 == Promotes then FinalizeFrom(net, step.1, infos, j + 1) else step
  }

  /** The lock certificate is only looked at when it is new and its batch is there. */
  function LockedFirst(net: Network, log: Log, info: Option<SignatureData>): (Outcome, Log)
    requires net.Valid()
  {
    if info.Some? && log.locked < info.value.point.index <= |log.entries| then Promote(net, log, info.value)
    else (Declines, log)
  }

  function Synced(net: Network, log: Log, r: Response): (Outcome, Log)
    requires net.Valid()
  {
    var lock := LockedFirst(net, Append(log, r.bodies), r.lastLocked);
    if lock.0 == Throws then lock else FinalizeFrom(net, lock.1, r.finalized, 0)
  }

  lemma {:induction false} FinalizeIgnoresBase(net: Network, log: Log, base: nat, infos: seq<SignatureData>, j: nat)
    requires net.Valid() && log.Ordered() && log.(base := base).Ordered() && j <= |infos|
    ensures FinalizeFrom(net, log.(base := base), infos, j) ==
            (FinalizeFrom(net, log, infos, j).0, FinalizeFrom(net, log, infos, j).1.(base := base))
    decreases |infos| - j
  {
    if j < |infos| {
      var step := Promote(net, log, infos[j]);
      PromoteIgnoresBase(net, log, base, infos[j]);
      if step.0 == Promotes {
        PromoteIgnoresBase(net, log.(base := base), base, infos[j]);
        FinalizeIgnoresBase(net, step.1, base, infos, j + 1);
      }
    }
  }

  /** The two stages of Synced one after the other, with pruning in between. */
  lemma FinalizedOnLocked(net: Network, appended: Log, r: Response, locked: Log)
    requires net.Valid() && appended.Ordered() && locked.Ordered()
    requires SameLog(locked, LockedFirst(net, appended, r.lastLocked).1)
    ensures var plain := FinalizeFrom(net, LockedFirst(net, appended, r.lastLocked).1, r.finalized, 0);
      FinalizeFrom(net, locked, r.finalized, 0) == (plain.0, plain.1.(base := locked.base))
  {
    if r.lastLocked.Some? {
      PromoteIgnoresBase(net, appended, appended.base, r.lastLocked.value);
    }
    FinalizeIgnoresBase(net, LockedFirst(net, appended, r.lastLocked).1, locked.base, r.finalized, 0);
  }

  /** A lock that is not new, or whose batch is not there, is not even looked at. */
  lemma LockIgnored(net: Network, log: Log, r: Response)
    requires net.Valid() && r.lastLocked.Some?
    requires r.lastLocked.value.point.index <= log.locked ||
             r.lastLocked.value.point.index > |log.entries| + |r.bodies|
    ensures Synced(net, log, r) == Synced(net, log, r.(lastLocked := None))
  {
  }

  /** The first finalization that is not accepted ends the list, whatever follows. */
  lemma {:induction false} StopsAtRefusal(net: Network, log: Log, infos: seq<SignatureData>, j: nat, k: nat,
                                          before: Log)
    requires net.Valid() && j <= k < |infos|
    requires FinalizeFrom(net, log, infos[..k], j) == (Promotes, before)
    requires Promote(net, before, infos[k]).0 != Promotes
    ensures FinalizeFrom(net, log, infos, j) == Promote(net, before, infos[k])
    decreases k - j
  {
    if j < k {
      assert infos[..k][j] == infos[j];
      StopsAtRefusal(net, Promote(net, log, infos[j]).1, infos, j + 1, k, before);
    }
  }

  /** An answer that lacks its lock only adds its bodies; one with a gap in its list is read up to there, and
      applying it ends well only if the list ends earlier, at a certificate that is not accepted. */
  lemma GapExactly(net: Network, log: Log, r: Response, gap: Gap)
    requires net.Valid()
    ensures gap == NoLock ==>
              Synced(net, log, ReadUpTo(r, gap)).1 == Append(log, r.bodies) && !Applies(net, log, r, gap)
    ensures gap == Complete || gap == NoLastIndex ==>
              ReadUpTo(r, gap) == r && (Applies(net, log, r, gap) <==> Synced(net, log, r).0 != Throws)
    ensures gap.NoFinalization? && gap.position <= |r.finalized| ==>
              && ReadUpTo(r, gap) == r.(finalized := r.finalized[..gap.position])
              && (Applies(net, log, r, gap) <==> Synced(net, log, ReadUpTo(r, gap)).0 == Declines)
  {
  }

  class Follower {
    const id: NodeId
    const db: InMemoryDB
    var sequencerDown: bool
    var censoring: bool

    constructor (id: NodeId, db: InMemoryDB)
      ensures this.id == id && this.db == db && !sequencerDown && !censoring
    {
      this.id, this.db, sequencerDown, censoring := id, db, false, false;
    }

    /** Insert the bodies, lock, then finalize.  False stands for an exception on the way. */
    method SyncWithSequencer(response: Response, gap: Gap) returns (ok: bool)
      requires db.Valid()
      modifies db`operational, db`firstFinalizedIndex, db`pruned, db`points, db.operational, db.snapshots
      ensures db.Valid() && (db.operational == old(db.operational) || fresh(db.operational))
      ensures ok <==> Applies(db.net, old(db.AsLog()), response, gap)
      ensures SameLog(db.AsLog(), Synced(db.net, old(db.AsLog()), ReadUpTo(response, gap)).1)
    {
      db.InsertSequencedBatchBodies(response.bodies);
      ghost var appended := db.AsLog();
      if gap == NoLock {
        return false;
      }
      ok := LockFirst(response.lastLocked);
      if ok {
        ghost var locked := db.AsLog();
        var outcome := FinalizeAll(ReadUpTo(response, gap).finalized);
        ok := outcome != Throws && (gap.NoFinalization? ==> outcome != Promotes);
        FinalizedOnLocked(db.net, appended, ReadUpTo(response, gap), locked);
      }
    }

    method LockFirst(info: Option<SignatureData>) returns (ok: bool)
      requires db.Valid()
      modifies db`operational, db`firstFinalizedIndex, db`pruned, db`points, db.operational, db.snapshots
      ensures db.Valid() && (db.operational == old(db.operational) || fresh(db.operational))
      ensures ok <==> LockedFirst(db.net, old(db.AsLog()), info).0 != Throws
      ensures SameLog(db.AsLog(), LockedFirst(db.net, old(db.AsLog()), info).1)
    {
      var view := db.operational.View();
      var lastSequenced, lastLocked := view.LastOr(Sequenced, 0), view.LastOr(Locked, 0);
      WindowOfLog(db.Picture());
      ok := true;
      if info.Some? && lastLocked < info.value.point.index <= lastSequenced {
        var outcome := Deliver(info.value);
        ok := outcome != Throws;
      }
    }

    /** Promote; what comes of it is what Promote says, up to pruning. */
    method Deliver(data: SignatureData) returns (outcome: Outcome)
      requires db.Valid()
      modifies db`operational, db`firstFinalizedIndex, db`pruned, db`points, db.operational, db.snapshots
      ensures db.Valid() && (db.operational == old(db.operational) || fresh(db.operational))
      ensures outcome == Promote(db.net, old(db.AsLog()), data).0
      ensures SameLog(db.AsLog(), Promote(db.net, old(db.AsLog()), data).1)
    {
      outcome := db.PromoteBatches(data);
    }

    method FinalizeAll(infos: seq<SignatureData>) returns (outcome: Outcome)
      requires db.Valid()
      modifies db`operational, db`firstFinalizedIndex, db`pruned, db`points, db.operational, db.snapshots
      ensures db.Valid() && (db.operational == old(db.operational) || fresh(db.operational))
      ensures outcome == FinalizeFrom(db.net, old(db.AsLog()), infos, 0).0
      ensures SameLog(db.AsLog(), FinalizeFrom(db.net, old(db.AsLog()), infos, 0).1)
    {
      ghost var log := db.AsLog();
      var j := 0;
      while j < |infos|
        invariant 0 <= j <= |infos|
        invariant db.Valid() && (db.operational == old(db.operational) || fresh(db.operational))
        invariant FinalizeFrom(db.net, old(db.AsLog()), infos, 0) == FinalizeFrom(db.net, log, infos, j)
        invariant SameLog(db.AsLog(), log) && log.Ordered()
      {
        PromoteIgnoresBase(db.net, log, db.AsLog().base, infos[j]);
        outcome := Deliver(infos[j]);
        log := Promote(db.net, log, infos[j]).1;
        if outcome != Promotes {
          return;
        }
        j := j + 1;
      }
      outcome := Promotes;
    }

    /** Sign a sync point if the log and the clock agree with it. */
    method SignSyncPoint(p: SyncPoint, now: real) returns (signature: Option<Signature>)
      requires db.Valid() && db.AsLog().Valid()
      ensures db.AsLog().LastFinalized() != 0 ==>
                && db.AsLog().InMemory(db.AsLog().LastFinalized())
                && db.AsLog().At(db.AsLog().LastFinalized()).timestamp.Some?
      ensures signature == if MaySign(db.AsLog(), p, now) then Some(Signature(id, p)) else None
    {
      WindowOfLog(db.Picture());
      MaySignDefined(db.AsLog());
      if p.state == Locked {
        if !(now - 10.0 < p.timestamp as real < now + 10.0) {
          return None;
        }
      } else if p.timestamp != 0 {
        return None;
      }
      var view := db.operational.View();
      var lastFinalized := view.LastOr(Finalized, 0);
      if lastFinalized != 0 {
        if p.state == Locked && view.Get(lastFinalized).value.timestamp.value > p.timestamp {
          return None;
        }
        if p.parent != lastFinalized {
          return None;
        }
      }
      var found := view.Get(p.index);
      if found.None? || found.value.chainingHash != p.chainingHash || !p.state.BeforeOrEqual(view.StateAt(p.index)) {
        return None;
      }
      return Some(Signature(id, p));
    }

    /** What is sent: new bodies, and how far the log has got in each state. */
    method MakeRequest(bodies: seq<Body>) returns (request: Request)
      requires db.Valid()
      ensures IsRequest(db.AsLog(), bodies, request)
    {
      WindowOfLog(db.Picture());
      var view := db.operational.View();
      var sequenced, locked := view.LastOr(Sequenced, 0), view.LastOr(Locked, 0);
      var sequencedHash := if sequenced == 0 then NoHash else view.Get(sequenced).value.chainingHash;
      var lockedHash := if locked == 0 then NoHash else view.Get(locked).value.chainingHash;
      request := Request(bodies, sequenced, sequencedHash, locked, lockedHash, view.LastOr(Finalized, 0));
    }

    /** Take what fits from the queue, and make a request of it. */
    method Prepare(maxKb: real) returns (bodies: seq<Body>, request: Request)
      requires db.Valid()
      modifies db`initialized
      ensures db.Valid() && db.AsLog() == old(db.AsLog())
      ensures bodies + db.initialized == old(db.initialized)
      ensures IsLongestFit(old(db.initialized), maxKb, |bodies|)
      ensures IsRequest(db.AsLog(), bodies, request)
    {
      bodies := db.PopLimited(maxKb);
      request := MakeRequest(bodies);
    }

    /** Send what is waiting, as far as the limit allows, and apply the answer.  The result is the
        sequencer's last finalized index, 0 if there is none. */
    method SendAppBatches(maxKb: real, reply: SendResult)
      returns (last: int, request: Request, ghost popped: seq<Body>, ghost back: seq<Body>)
      requires db.Valid()
      modifies this`sequencerDown, this`censoring
      modifies db`operational, db`initialized, db`firstFinalizedIndex, db`pruned, db`points
      modifies db.operational, db.snapshots
      ensures db.Valid()
      ensures popped <= old(db.initialized) && IsLongestFit(old(db.initialized), maxKb, |popped|)
      ensures IsRequest(old(db.AsLog()), popped, request)
      // Whatever the answer, this is what the log and the queue become.
      ensures var (log, queue) := Sent(db.net, old(db.AsLog()), old(db.initialized)[|popped|..], popped, back, reply);
        SameLog(db.AsLog(), log) && db.initialized == queue
      // What comes back to the queue on success is what the answer leaves out, each body once.
      ensures reply.Answered? ==> IsCensored(popped, reply.response.bodies, back)
      ensures if reply.Answered? && Applies(db.net, old(db.AsLog()), reply.response, reply.gap)
              then censoring <==> back != []
              else censoring == old(censoring)
      ensures Succeeds(db.net, old(db.AsLog()), reply) ==> last == reply.response.lastFinalized && !sequencerDown
      ensures !Succeeds(db.net, old(db.AsLog()), reply) ==>
                last == 0 && sequencerDown == (old(sequencerDown) || !(reply.NotSequencer? && reply.found != Unclear))
    {
      var bodies;
      bodies, request := Prepare(maxKb);
      popped := bodies;
      last, back := Receive(bodies, reply);
    }

    /** Act on what came of a request. */
    method Receive(bodies: seq<Body>, reply: SendResult) returns (last: int, ghost back: seq<Body>)
      requires db.Valid()
      modifies this`sequencerDown, this`censoring
      modifies db`operational, db`initialized, db`firstFinalizedIndex, db`pruned, db`points
      modifies db.operational, db.snapshots
      ensures db.Valid()
      ensures var (log, queue) := Sent(db.net, old(db.AsLog()), old(db.initialized), bodies, back, reply);
        SameLog(db.AsLog(), log) && db.initialized == queue
      ensures reply.Answered? ==> IsCensored(bodies, reply.response.bodies, back)
      ensures if reply.Answered? && Applies(db.net, old(db.AsLog()), reply.response, reply.gap)
              then censoring <==> back != []
              else censoring == old(censoring)
      ensures Succeeds(db.net, old(db.AsLog()), reply) ==> last == reply.response.lastFinalized && !sequencerDown
      ensures !Succeeds(db.net, old(db.AsLog()), reply) ==>
                last == 0 && sequencerDown == (old(sequencerDown) || !(reply.NotSequencer? && reply.found != Unclear))
    {
      back, last := [], 0;
      match reply
      case Unreachable =>
        db.ReinitMissedBatchBodies(bodies);
        sequencerDown := true;
      case Refused =>
        db.ReinitMissedBatchBodies(bodies);
        sequencerDown := true;
      case NotSequencer(found) => ResetSequencer(bodies, found);
      case Answered(response, gap) => last, back := ApplyAnswer(bodies, response, gap);
    }

    /** The bodies come back, and the switch that was missed is made up for; looking for the right sequencer may
        raise an exception, and then they come back once more. */
    method ResetSequencer(bodies: seq<Body>, found: Lookup)
      requires db.Valid()
      modifies this`sequencerDown, db`operational, db`initialized
      ensures db.Valid()
      ensures (db.AsLog(), db.initialized) ==
                Sent(db.net, old(db.AsLog()), old(db.initialized), bodies, [], NotSequencer(found))
      ensures sequencerDown == (old(sequencerDown) || found == Unclear)
    {
      db.ReinitMissedBatchBodies(bodies);
      match found {
        case Another => db.ReinitializeSequencedBatches();
        case Same =>
        case Unclear =>
          db.ReinitMissedBatchBodies(bodies);
          sequencerDown := true;
      }
    }

    method ApplyAnswer(bodies: seq<Body>, response: Response, gap: Gap) returns (last: int, back: seq<Body>)
      requires db.Valid()
      modifies this`sequencerDown, this`censoring
      modifies db`operational, db`initialized, db`firstFinalizedIndex, db`pruned, db`points
      modifies db.operational, db.snapshots
      ensures db.Valid()
      ensures IsCensored(bodies, response.bodies, back)
      ensures SameLog(db.AsLog(), Synced(db.net, old(db.AsLog()), ReadUpTo(response, gap)).1)
      ensures db.initialized == Requeued(db.net, old(db.AsLog()), old(db.initialized), bodies, back, response, gap)
      ensures if Applies(db.net, old(db.AsLog()), response, gap) then censoring <==> back != []
              else censoring == old(censoring)
      ensures if Applies(db.net, old(db.AsLog()), response, gap) && gap != NoLastIndex
              then last == response.lastFinalized && !sequencerDown
              else last == 0 && sequencerDown
    {
      back := CensoredBodies(bodies, response.bodies);
      var ok := SyncWithSequencer(response, gap);
      last := Requeue(bodies, back, response.lastFinalized, gap, ok);
    }

    /** Put back what the answer left out, or everything after an exception. */
    method Requeue(bodies: seq<Body>, back: seq<Body>, lastFinalized: int, gap: Gap, applied: bool) returns (last: int)
      modifies this`sequencerDown, this`censoring, db`initialized
      ensures db.initialized ==
                if !applied then Reversed(bodies) + old(db.initialized)
                else if gap == NoLastIndex then Reversed(bodies) + (Reversed(back) + old(db.initialized))
                else Reversed(back) + old(db.initialized)
      ensures censoring == if applied then back != [] else old(censoring)
      ensures if applied && gap != NoLastIndex then last == lastFinalized && !sequencerDown
              else last == 0 && sequencerDown
    {
      if applied {
        sequencerDown := false;
        db.ReinitMissedBatchBodies(back);
        censoring := back != [];
      }
      if applied && gap != NoLastIndex {
        last := lastFinalized;
      } else {
        db.ReinitMissedBatchBodies(bodies);
        sequencerDown := true;
        last := 0;
      }
    }

    /** The set difference of what was sent and what came back, in some order. */
    method CensoredBodies(sent: seq<Body>, received: seq<Body>) returns (back: seq<Body>)
      ensures IsCensored(sent, received, back)
    {
      var rest := (set b | b in sent) - (set b | b in received);
      back := [];
      while rest != {}
        invariant forall b :: b in sent && b !in received <==> b in rest || b in back
        invariant forall b | b in back :: b !in rest
        invariant forall i, j | 0 <= i < j < |back| :: back[i] != back[j]
        decreases |rest|
      {
        var body :| body in rest;
        back := back + [body];
        rest := rest - {body};
      }
    }
  }

  /** What can come of a request: an exception, an error answer, or an answer.  When the node it was
      sent to is not the sequencer any more, looking for the right one has three results as well; an error answer
      without a code raises the same exception at the same place as a search that fails. */
  datatype SendResult = Unreachable | Refused | NotSequencer(found: Lookup) | Answered(response: Response, gap: Gap)

  datatype Lookup = Another | Same | Unclear

  /** The first field that an answer turns out not to have.  Without its bodies it is as good as unreachable,
      since nothing has been changed by then. */
  datatype Gap = Complete | NoLock | NoFinalization(position: nat) | NoLastIndex

  /** The part of an answer in front of the gap. */
  function ReadUpTo(r: Response, gap: Gap): (part: Response)
    ensures part.bodies == r.bodies
  {
    match gap
    case NoLock => r.(lastLocked := None, finalized := [])
    case NoFinalization(j) => r.(finalized := r.finalized[..Min(j, |r.finalized|)])
    case _ => r
  }

  /** Applying an answer raises no exception: the gap is not reached, nor does a certificate raise one. */
  predicate Applies(net: Network, log: Log, r: Response, gap: Gap)
    requires net.Valid()
  {
    var outcome := Synced(net, log, ReadUpTo(r, gap)).0;
    gap != NoLock && outcome != Throws && (gap.NoFinalization? ==> outcome != Promotes)
  }

  /** New bodies, and how far the log has got in each state, with the chaining hashes there. */
  ghost predicate IsRequest(log: Log, bodies: seq<Body>, request: Request)
    requires 0 <= log.locked <= |log.entries|
  {
    && request.bodies == bodies
    && request.sequencedIndex == |log.entries|
    && request.sequencedHash == (if log.entries == [] then NoHash else log.At(|log.entries|).chainingHash)
    && request.lockedIndex == log.locked
    && request.lockedHash == (if log.locked == 0 then NoHash else log.At(log.locked).chainingHash)
    && request.finalizedIndex == log.LastFinalized()
  }

  ghost predicate IsCensored(sent: seq<Body>, received: seq<Body>, back: seq<Body>) {
    && (forall b :: b in back <==> b in sent && b !in received)
    && (forall i, j | 0 <= i < j < |back| :: back[i] != back[j])
  }

  predicate Succeeds(net: Network, log: Log, reply: SendResult)
    requires net.Valid()
  {
    reply.Answered? && Applies(net, log, reply.response, reply.gap) && reply.gap != NoLastIndex
  }

  /** The queue after an answer: an exception at the very end comes after the censored bodies are back. */
  function Requeued(net: Network, log: Log, rest: seq<Body>, popped: seq<Body>, back: seq<Body>, r: Response, gap: Gap)
    : seq<Body>
    requires net.Valid()
  {
    if !Applies(net, log, r, gap) then Reversed(popped) + rest
    else if gap == NoLastIndex then Reversed(popped) + (Reversed(back) + rest)
    else Reversed(back) + rest
  }

  /** The log and the queue after sending popped, with rest left waiting. */
  function Sent(net: Network, log: Log, rest: seq<Body>, popped: seq<Body>, back: seq<Body>, reply: SendResult)
    : (Log, seq<Body>)
    requires net.Valid() && 0 <= log.locked <= |log.entries|
  {
    match reply
    case Unreachable => (log, Reversed(popped) + rest)
    case Refused => (log, Reversed(popped) + rest)
    case NotSequencer(found) => (
      match found
      case Another => (Reset(log), Reversed(popped) + rest + ResetBodies(log))
      case Same => (log, Reversed(popped) + rest)
      case Unclear => (log, Reversed(popped) + (Reversed(popped) + rest)))
    case Answered(response, gap) =>
      (Synced(net, log, ReadUpTo(response, gap)).1, Requeued(net, log, rest, popped, back, response, gap))
  }

  /** What is waiting after a send, each body as often as it is waiting: what was not sent, and what came back. */
  lemma SentQueue(net: Network, log: Log, rest: seq<Body>, popped: seq<Body>, back: seq<Body>, reply: SendResult)
    requires net.Valid() && 0 <= log.locked <= |log.entries|
    ensures var queue := multiset(Sent(net, log, rest, popped, back, reply).1);
      queue == multiset(rest) +
        match reply
        case Unreachable => multiset(popped)
        case Refused => multiset(popped)
        case NotSequencer(found) => multiset(popped) + (
          match found
          case Another => multiset(Bodies(log.entries[log.locked..]))
          case Same => multiset{}
          case Unclear => multiset(popped))
        case Answered(response, gap) =>
          if !Applies(net, log, response, gap) then multiset(popped)
          else if gap == NoLastIndex then multiset(back) + multiset(popped)
          else multiset(back)
    ensures !reply.Answered? ==>
              Sent(net, log, rest, popped, back, reply).0 ==
              if reply == NotSequencer(Another) then log.(entries := log.entries[..log.locked]) else log
  {
    ReversedBodies(popped);
    ReversedBodies(back);
  }

  // ---- What is locked stays ----

  lemma {:induction false} FinalizeKeeps(net: Network, log: Log, infos: seq<SignatureData>, j: nat)
    requires net.Valid() && log.Valid() && j <= |infos|
    ensures var r := FinalizeFrom(net, log, infos, j).1; r.Valid() && Endures(log, r)
    decreases |infos| - j
  {
    if j == |infos| {
      ApplyEndures(net, log, Appending([]));
    } else {
      var next := Promote(net, log, infos[j]).1;
      ApplyValid(net, log, Delivering(infos[j]));
      ApplyEndures(net, log, Delivering(infos[j]));
      if Promote(net, log, infos[j]).0 == Promotes {
        FinalizeKeeps(net, next, infos, j + 1);
        EnduresTransitive(log, next, FinalizeFrom(net, next, infos, j + 1).1);
      }
    }
  }

  /** Whatever an answer contains, the log stays valid and everything locked is still there. */
  lemma SyncedKeeps(net: Network, log: Log, r: Response)
    requires net.Valid() && log.Valid()
    ensures Synced(net, log, r).1.Valid() && Endures(log, Synced(net, log, r).1)
  {
    var inserted := Append(log, r.bodies);
    var locked := LockedFirst(net, inserted, r.lastLocked);
    ApplyValid(net, log, Appending(r.bodies));
    ApplyEndures(net, log, Appending(r.bodies));
    LockedFirstKeeps(net, inserted, r.lastLocked);
    EnduresTransitive(log, inserted, locked.1);
    FinalizeKeeps(net, locked.1, r.finalized, 0);
    EnduresTransitive(log, locked.1, FinalizeFrom(net, locked.1, r.finalized, 0).1);
  }

  lemma LockedFirstKeeps(net: Network, log: Log, info: Option<SignatureData>)
    requires net.Valid() && log.Valid()
    ensures LockedFirst(net, log, info).1.Valid() && Endures(log, LockedFirst(net, log, info).1)
  {
    if info.Some? {
      ApplyValid(net, log, Delivering(info.value));
      ApplyEndures(net, log, Delivering(info.value));
    }
    ApplyEndures(net, log, Appending([]));
  }

  // ---- No body is lost ----

  lemma {:induction false} AppendBodies(log: Log, bodies: seq<Body>)
    ensures Bodies(Append(log, bodies).entries) == Bodies(log.entries) + bodies
  {
    if bodies != [] {
      var n := |bodies| - 1;
      var most := Append(log, bodies[..n]);
      AppendBodies(log, bodies[..n]);
      BodiesConcat(most.entries, [NewBatch(bodies[n], LinkHash(LastHash(most.entries), BodyHash(bodies[n])))]);
      assert bodies == bodies[..n] + [bodies[n]];
    }
  }

  lemma PromoteBodies(net: Network, log: Log, data: SignatureData)
    requires net.Valid() && log.Ordered()
    ensures Bodies(Promote(net, log, data).1.entries) == Bodies(log.entries)
  {
  }

  lemma {:induction false} FinalizeBodies(net: Network, log: Log, infos: seq<SignatureData>, j: nat)
    requires net.Valid() && log.Ordered() && j <= |infos|
    ensures Bodies(FinalizeFrom(net, log, infos, j).1.entries) == Bodies(log.entries)
    decreases |infos| - j
  {
    if j < |infos| {
      PromoteBodies(net, log, infos[j]);
      PromoteIgnoresBase(net, log, log.base, infos[j]);
      if Promote(net, log, infos[j]).0 == Promotes {
        FinalizeBodies(net, Promote(net, log, infos[j]).1, infos, j + 1);
      }
    }
  }

  /** An answer adds its bodies to the log, whatever becomes of its certificates. */
  lemma SyncedBodies(net: Network, log: Log, r: Response)
    requires net.Valid() && log.Ordered()
    ensures Bodies(Synced(net, log, r).1.entries) == Bodies(log.entries) + r.bodies
  {
    var appended := Append(log, r.bodies);
    AppendBodies(log, r.bodies);
    if r.lastLocked.Some? {
      PromoteBodies(net, appended, r.lastLocked.value);
      PromoteIgnoresBase(net, appended, appended.base, r.lastLocked.value);
    }
    FinalizeBodies(net, LockedFirst(net, appended, r.lastLocked).1, r.finalized, 0);
  }

  /** What a follower has to take care of. */
  datatype Holding = Holding(log: Log, queue: seq<Body>)

  ghost predicate Holds(h: Holding, b: Body) {
    b in h.queue || b in Bodies(h.log.entries)
  }

  /** Every body that was waiting or in the log before a send is afterwards waiting or in the log. */
  lemma NoBodyLost(net: Network, h: Holding, n: nat, back: seq<Body>, reply: SendResult, b: Body)
    requires net.Valid() && h.log.Ordered() && n <= |h.queue| && Holds(h, b)
    requires reply.Answered? ==> IsCensored(h.queue[..n], reply.response.bodies, back)
    ensures var (log, queue) := Sent(net, h.log, h.queue[n..], h.queue[..n], back, reply);
      Holds(Holding(log, queue), b)
  {
    var popped, rest := h.queue[..n], h.queue[n..];
    assert h.queue == popped + rest;
    match reply
    case Answered(response, gap) =>
      SyncedBodies(net, h.log, ReadUpTo(response, gap));
    case NotSequencer(found) => ResetKeeps(h.log);
    case _ =>
  }

  lemma ResetKeeps(log: Log)
    requires 0 <= log.locked <= |log.entries|
    ensures Bodies(log.entries) == Bodies(Reset(log).entries) + ResetBodies(log)
  {
    BodiesConcat(log.entries[..log.locked], log.entries[log.locked..]);
    assert log.entries == log.entries[..log.locked] + log.entries[log.locked..];
  }

  /** What happens at a follower: new bodies come in, some are sent, or the sequencer changes. */
  datatype Turn = Submitting(bodies: seq<Body>) | Sending(count: nat, back: seq<Body>, reply: SendResult) | Changing

  /** One such event.  It may also drop entries from memory. */
  ghost predicate Follows(net: Network, h: Holding, t: Holding, turn: Turn)
    requires net.Valid()
  {
    && h.log.Ordered()
    && match turn
       case Submitting(bodies) => t == Holding(h.log, h.queue + bodies)
       case Changing => t == Holding(Reset(h.log), h.queue + ResetBodies(h.log))
       case Sending(n, back, reply) =>
         && n <= |h.queue|
         && (reply.Answered? ==> IsCensored(h.queue[..n], reply.response.bodies, back))
         && var (log, queue) := Sent(net, h.log, h.queue[n..], h.queue[..n], back, reply);
            SameLog(t.log, log) && t.queue == queue
  }

  lemma TurnKeeps(net: Network, h: Holding, t: Holding, turn: Turn, b: Body)
    requires net.Valid() && Follows(net, h, t, turn)
    requires Holds(h, b) || (turn.Submitting? && b in turn.bodies)
    ensures Holds(t, b)
  {
    match turn
    case Submitting(bodies) =>
    case Changing => ResetKeeps(h.log);
    case Sending(n, back, reply) => NoBodyLost(net, h, n, back, reply, b);
  }

  /** Over any sequence of submissions, sends with whatever answers, and sequencer changes, every body that was
      ever submitted or in the log is still waiting or in the log. */
  lemma {:induction false} NoBodyEverLost(net: Network, run: seq<Holding>, turns: seq<Turn>, j: nat, k: nat, b: Body)
    requires net.Valid() && |run| == |turns| + 1 && j <= k < |run|
    requires forall n | 0 <= n < |turns| :: Follows(net, run[n], run[n + 1], turns[n])
    requires Holds(run[j], b) || (j < k && turns[j].Submitting? && b in turns[j].bodies)
    ensures Holds(run[k], b)
    decreases k - j
  {
    if j < k {
      assert Follows(net, run[j], run[j + 1], turns[j]);
      TurnKeeps(net, run[j], run[j + 1], turns[j], b);
      NoBodyEverLost(net, run, turns, j + 1, k, b);
    }
  }
}
