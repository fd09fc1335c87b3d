// The moving-window rate limiter (common/rate_limit.py): a cached sum over a history from which
// old events are dropped.

module RateLimits {

  datatype Event = Event(time: real, cost: real)

  /** An admitted event, with the moment its cost was checked and the limit at that moment. */
  datatype Admission = Admission(event: Event, checked: real, limit: real)

  /** The cost of the first n events. */
  function CostTo(events: seq<Event>, n: nat): real
    requires n <= |events|
  {
    if n == 0 then 0.0 else CostTo(events, n - 1) + events[n - 1].cost
  }

  function Cost(events: seq<Event>): real {
    CostTo(events, |events|)
  }

  ghost predicate Sorted(events: seq<Event>) {
    forall i, j :: 0 <= i < j < |events| ==> InOrder(events, i, j)
  }

  ghost predicate InOrder(events: seq<Event>, i: nat, j: nat)
    requires i < |events| && j < |events|
  {
    events[i].time <= events[j].time
  }

  function Events(admitted: seq<Admission>): (events: seq<Event>)
    ensures |events| == |admitted|
  {
    seq(|admitted|, i requires 0 <= i < |admitted| => admitted[i].event)
  }

  /** The cost of those among the first n events that fall into a closed interval. */
  ghost function CostWithin(events: seq<Event>, n: nat, from: real, to: real): real
    requires n <= |events|
  {
    if n == 0 then 0.0
    else CostWithin(events, n - 1, from, to) + (if from <= events[n - 1].time <= to then events[n - 1].cost else 0.0)
  }

  /** Every admission with a positive cost kept the window behind it within the limit. */
  ghost predicate Bounded(admitted: seq<Admission>, window: real) {
    forall k :: 0 <= k < |admitted| ==> BoundedAt(admitted, window, k)
  }

  ghost predicate BoundedAt(admitted: seq<Admission>, window: real, k: nat)
    requires k < |admitted|
  {
    var a := admitted[k];
    && a.checked <= a.event.time
    && (a.event.cost > 0.0 ==> CostWithin(Events(admitted), k + 1, a.checked - window, a.event.time) <= a.limit)
  }

  // ---- What follows for every window ----

  /** In no closed interval of the window's length is more admitted than the limits of that interval allow. */
  lemma {:induction false} WindowBound(admitted: seq<Admission>, window: real, n: nat, from: real, limit: real)
    requires Sorted(Events(admitted)) && Bounded(admitted, window) && n <= |admitted|
    requires forall k | 0 <= k < n :: admitted[k].event.cost >= 0.0
    requires forall k | 0 <= k < n && from <= admitted[k].event.time <= from + window :: admitted[k].limit <= limit
    requires limit >= 0.0
    ensures CostWithin(Events(admitted), n, from, from + window) <= limit
  {
    var events := Events(admitted);
    if n > 0 {
      var e := events[n - 1];
      WindowBound(admitted, window, n - 1, from, limit);
      if e.cost > 0.0 && from <= e.time <= from + window {
        assert BoundedAt(admitted, window, n - 1);
        SortedAround(events, n - 1);
        WiderCostsMore(events, n, from, from + window, admitted[n - 1].checked - window, e.time);
      }
    }
  }

  /** With sorted events up to n, only the start of the interval matters beyond the last event. */
  lemma {:induction false} WiderCostsMore(events: seq<Event>, n: nat, from: real, to: real, from': real, to': real)
    requires n <= |events|
    requires from' <= from && forall k | 0 <= k < n :: events[k].cost >= 0.0 && events[k].time <= to'
    ensures CostWithin(events, n, from, to) <= CostWithin(events, n, from', to')
  {
    if n > 0 {
      WiderCostsMore(events, n - 1, from, to, from', to');
    }
  }

  // ---- The history is the recent part of what was admitted ----

  lemma {:induction false} SamePrefix(a: seq<Event>, b: seq<Event>, n: nat, from: real, to: real)
    requires n <= |a| && n <= |b| && forall i | 0 <= i < n :: a[i] == b[i]
    ensures CostTo(a, n) == CostTo(b, n)
    ensures CostWithin(a, n, from, to) == CostWithin(b, n, from, to)
  {
    if n > 0 {
      SamePrefix(a, b, n - 1, from, to);
    }
  }

  lemma {:induction false} CostConcat(a: seq<Event>, b: seq<Event>, n: nat)
    requires n <= |b|
    ensures CostTo(a + b, |a| + n) == Cost(a) + CostTo(b, n)
  {
    if n == 0 {
      SamePrefix(a + b, a, |a|, 0.0, 0.0);
    } else {
      CostConcat(a, b, n - 1);
      assert (a + b)[|a| + n - 1] == b[n - 1];
    }
  }

  lemma CostSplit(events: seq<Event>, i: nat)
    requires i <= |events|
    ensures Cost(events[i..]) == Cost(events) - Cost(events[..i])
  {
    assert events[..i] + events[i..] == events;
    CostConcat(events[..i], events[i..], |events| - i);
  }

  /** If the events before i are too old and none is too new, the rest is what falls into the interval. */
  lemma {:induction false} RestIsWithin(events: seq<Event>, i: nat, n: nat, from: real, to: real)
    requires i <= n <= |events|
    requires forall k | 0 <= k < i :: events[k].time < from
    requires forall k | i <= k < n :: from <= events[k].time <= to
    ensures CostWithin(events, n, from, to) == CostTo(events, n) - CostTo(events, i)
    decreases n
  {
    if n > i {
      RestIsWithin(events, i, n - 1, from, to);
    } else if n > 0 {
      OldIsOutside(events, n, from, to);
    }
  }

  lemma {:induction false} OldIsOutside(events: seq<Event>, n: nat, from: real, to: real)
    requires n <= |events| && forall k | 0 <= k < n :: events[k].time < from
    ensures CostWithin(events, n, from, to) == 0.0
  {
    if n > 0 {
      OldIsOutside(events, n - 1, from, to);
    }
  }

  // ---- One identifier ----

  /** What is remembered of the admissions up to a moment: the recent ones, and their cached sum. */
  ghost predicate Tracks(history: seq<Event>, sum: real, admitted: seq<Admission>, window: real, clock: real) {
    var events := Events(admitted);
    && sum == Cost(history)
    && Sorted(events) && Bounded(admitted, window)
    && |history| <= |events|
    && (forall k :: 0 <= k < |history| ==> KeptAt(history, events, k))
    && (forall k :: 0 <= k < |events| ==> PlacedAt(events, |history|, window, clock, k))
  }

  ghost predicate KeptAt(history: seq<Event>, events: seq<Event>, k: nat)
    requires k < |history| <= |events|
  {
    history[k] == events[|events| - |history| + k]
  }

  /** Events do not lie in the future, and those that were dropped had expired. */
  ghost predicate PlacedAt(events: seq<Event>, kept: nat, window: real, clock: real, k: nat)
    requires k < |events|
  {
    events[k].time <= clock && (k < |events| - kept ==> events[k].time < clock - window)
  }

  ghost function InWindow(admitted: seq<Admission>, window: real, now: real): real {
    CostWithin(Events(admitted), |admitted|, now - window, now)
  }

  /** Dropping what is too old leaves exactly the cost of the window. */
  lemma Expire(history: seq<Event>, sum: real, admitted: seq<Admission>, window: real, clock: real, now: real, i: nat)
    requires Tracks(history, sum, admitted, window, clock) && clock <= now && i <= |history|
    requires forall k | 0 <= k < i :: history[k].time < now - window
    requires forall k | i <= k < |history| :: history[k].time >= now - window
    ensures Tracks(history[i..], sum - Cost(history[..i]), admitted, window, now)
    ensures sum - Cost(history[..i]) == InWindow(admitted, window, now)
  {
    var events := Events(admitted);
    var dropped := |events| - |history|;
    forall k | 0 <= k < |events|
      ensures PlacedAt(events, |history[i..]|, window, now, k) && (dropped + i <= k ==> now - window <= events[k].time)
    {
      assert PlacedAt(events, |history|, window, clock, k);
      assert dropped <= k ==> KeptAt(history, events, k - dropped);
    }
    forall k | 0 <= k < |history[i..]|
      ensures KeptAt(history[i..], events, k)
    {
      assert KeptAt(history, events, i + k);
    }
    CostSplit(history, i);
    WindowIsRest(history, events, i, now - window, now);
  }

  /** The part of the history that has not expired is what falls into the window. */
  lemma WindowIsRest(history: seq<Event>, events: seq<Event>, i: nat, from: real, to: real)
    requires i <= |history| <= |events|
    requires forall k :: 0 <= k < |history| ==> KeptAt(history, events, k)
    requires forall k | 0 <= k < |events| - |history| + i :: events[k].time < from
    requires forall k | |events| - |history| + i <= k < |events| :: from <= events[k].time <= to
    ensures Cost(history[i..]) == CostWithin(events, |events|, from, to)
  {
    var n := |events| - |history| + i;
    RestIsWithin(events, n, |events|, from, to);
    CostSplit(events, n);
    SamePrefix(events[..n], events, n, 0.0, 0.0);
    assert history[i..] == events[n..] by {
      forall k | 0 <= k < |history[i..]|
        ensures history[i..][k] == events[n..][k]
      {
        assert KeptAt(history, events, i + k);
      }
    }
  }

  /** Admitting a cost that the remaining capacity allows. */
  lemma Admit(history: seq<Event>, sum: real, admitted: seq<Admission>, window: real, checked: real, a: Admission)
    requires Tracks(history, sum, admitted, window, checked) && sum == InWindow(admitted, window, checked)
    requires checked == a.checked <= a.event.time
    requires a.event.cost > 0.0 ==> sum + a.event.cost <= a.limit
    ensures Tracks(history + [a.event], sum + a.event.cost, admitted + [a], window, a.event.time)
  {
    var events, more := Events(admitted), Events(admitted + [a]);
    assert more == events + [a.event];
    CostConcat(history, [a.event], 1);
    assert CostTo([a.event], 1) == CostTo([a.event], 0) + a.event.cost;
    forall k | 0 <= k < |events|
      ensures events[k].time <= checked
    {
      assert PlacedAt(events, |history|, window, checked, k);
    }
    AdmitKeeps(history, events, window, checked, a.event);
    forall k | 0 <= k < |admitted + [a]|
      ensures BoundedAt(admitted + [a], window, k)
    {
      if k < |admitted| {
        assert BoundedAt(admitted, window, k);
        SamePrefix(more, events, k + 1, admitted[k].checked - window, admitted[k].event.time);
      } else {
        SamePrefix(more, events, k, checked - window, a.event.time);
        LaterEnd(events, k, checked - window, checked, a.event.time);
      }
    }
  }

  lemma AdmitKeeps(history: seq<Event>, events: seq<Event>, window: real, checked: real, e: Event)
    requires Sorted(events) && |history| <= |events| && checked <= e.time
    requires forall k :: 0 <= k < |history| ==> KeptAt(history, events, k)
    requires forall k :: 0 <= k < |events| ==> PlacedAt(events, |history|, window, checked, k)
    ensures var more, h := events + [e], history + [e];
      && Sorted(more)
      && (forall k :: 0 <= k < |h| ==> KeptAt(h, more, k))
      && (forall k :: 0 <= k < |more| ==> PlacedAt(more, |h|, window, e.time, k))
  {
    var more, h := events + [e], history + [e];
    forall i, j | 0 <= i < j < |more|
      ensures InOrder(more, i, j)
    {
      assert PlacedAt(events, |history|, window, checked, i);
      assert j < |events| ==> InOrder(events, i, j);
    }
    forall k | 0 <= k < |h|
      ensures KeptAt(h, more, k)
    {
      assert k < |history| ==> KeptAt(history, events, k);
    }
    forall k | 0 <= k < |more|
      ensures PlacedAt(more, |h|, window, e.time, k)
    {
      assert k < |events| ==> PlacedAt(events, |history|, window, checked, k);
    }
  }

  lemma {:induction false} LaterEnd(events: seq<Event>, n: nat, from: real, to: real, later: real)
    requires n <= |events| && to <= later && forall k | 0 <= k < n :: events[k].time <= to
    ensures CostWithin(events, n, from, later) == CostWithin(events, n, from, to)
  {
    if n > 0 {
      LaterEnd(events, n - 1, from, to, later);
    }
  }

  // ---- All identifiers ----

  datatype Books = Books(history: map<string, seq<Event>>, sums: map<string, real>,
                         admitted: map<string, seq<Admission>>, clock: real) {

    ghost predicate Sound(window: real) {
      && history.Keys == sums.Keys == admitted.Keys
      && (forall id {:trigger SoundAt(window, id)} :: id in history ==> SoundAt(window, id))
    }

    ghost predicate SoundAt(window: real, id: string)
      requires id in history && id in sums && id in admitted
    {
      Tracks(history[id], sums[id], admitted[id], window, clock)
    }

    /** Time passes, and one identifier gets a new history, sum and list of admissions. */
    ghost function With(id: string, h: seq<Event>, sum: real, a: seq<Admission>, now: real): Books {
      Books(history[id := h], sums[id := sum], admitted[id := a], now)
    }

    /** What may still be spent at a moment: the limit less what was admitted in the window behind it. */
    ghost function Capacity(maxCost: real, window: real, id: string, now: real): real {
      if id !in admitted then maxCost
      else
        var rest := maxCost - InWindow(admitted[id], window, now);
        if rest > 0.0 then rest else 0.0
    }
  }

  lemma OneChanged(b: Books, window: real, id: string, h: seq<Event>, sum: real, a: seq<Admission>, now: real)
    requires b.Sound(window) && b.clock <= now && Tracks(h, sum, a, window, now)
    ensures b.With(id, h, sum, a, now).Sound(window)
  {
    var r := b.With(id, h, sum, a, now);
    forall i | i in r.history
      ensures r.SoundAt(window, i)
    {
      if i != id {
        assert b.SoundAt(window, i);
        LaterTracks(b.history[i], b.sums[i], b.admitted[i], window, b.clock, now);
      }
    }
  }

  lemma LaterTracks(history: seq<Event>, sum: real, admitted: seq<Admission>, window: real, clock: real, now: real)
    requires Tracks(history, sum, admitted, window, clock) && clock <= now
    ensures Tracks(history, sum, admitted, window, now)
  {
    var events := Events(admitted);
    forall k | 0 <= k < |events|
      ensures PlacedAt(events, |history|, window, now, k)
    {
      assert PlacedAt(events, |history|, window, clock, k);
    }
  }

  lemma ExpireSound(b: Books, window: real, id: string, i: nat, now: real)
    requires b.Sound(window) && b.clock <= now && id in b.history && i <= |b.history[id]|
    requires forall k | 0 <= k < i :: b.history[id][k].time < now - window
    requires forall k | i <= k < |b.history[id]| :: b.history[id][k].time >= now - window
    ensures var rest, sum := b.history[id][i..], b.sums[id] - Cost(b.history[id][..i]);
      && Books(b.history[id := rest], b.sums[id := sum], b.admitted, now).Sound(window)
      && sum == InWindow(b.admitted[id], window, now)
  {
    assert b.SoundAt(window, id);
    Expire(b.history[id], b.sums[id], b.admitted[id], window, b.clock, now, i);
    OneChanged(b, window, id, b.history[id][i..], b.sums[id] - Cost(b.history[id][..i]), b.admitted[id], now);
    assert b.admitted[id := b.admitted[id]] == b.admitted;
  }

  lemma NothingExpired(b: Books, window: real, id: string, now: real)
    requires b.Sound(window) && id in b.history
    requires Books(b.history[id := b.history[id][0..]], b.sums[id := b.sums[id] - Cost(b.history[id][..0])],
                   b.admitted, now).Sound(window)
    ensures b.(clock := now).Sound(window) && b.sums[id] - Cost(b.history[id][..0]) == b.sums[id]
  {
    assert b.history[id][0..] == b.history[id];
    assert b.history[id := b.history[id]] == b.history && b.sums[id := b.sums[id]] == b.sums;
  }

  lemma AdmitSound(b: Books, window: real, id: string, a: Admission)
    requires b.Sound(window) && id in b.history
    requires b.sums[id] == InWindow(b.admitted[id], window, b.clock) && b.clock == a.checked <= a.event.time
    requires a.event.cost > 0.0 ==> b.sums[id] + a.event.cost <= a.limit
    ensures b.With(id, b.history[id] + [a.event], b.sums[id] + a.event.cost, b.admitted[id] + [a],
                   a.event.time).Sound(window)
  {
    assert b.SoundAt(window, id);
    Admit(b.history[id], b.sums[id], b.admitted[id], window, b.clock, a);
    OneChanged(b, window, id, b.history[id] + [a.event], b.sums[id] + a.event.cost, b.admitted[id] + [a], a.event.time);
  }

  lemma HistorySorted(b: Books, window: real, id: string)
    requires b.Sound(window) && id in b.history
    ensures Sorted(b.history[id])
  {
    assert b.SoundAt(window, id);
    var h, events := b.history[id], Events(b.admitted[id]);
    forall i, j | 0 <= i < j < |h|
      ensures InOrder(h, i, j)
    {
      assert KeptAt(h, events, i) && KeptAt(h, events, j);
      assert InOrder(events, |events| - |h| + i, |events| - |h| + j);
    }
  }

  /** The first position whose event is not older than a moment. */
  method BisectLeft(events: seq<Event>, time: real) returns (i: nat)
    requires Sorted(events)
    ensures i <= |events|
    ensures forall k | 0 <= k < i :: events[k].time < time
    ensures forall k | i <= k < |events| :: events[k].time >= time
  {
    var lo, hi := 0, |events|;
    while lo < hi
      invariant 0 <= lo <= hi <= |events|
      invariant forall k | 0 <= k < lo :: events[k].time < time
      invariant forall k | hi <= k < |events| :: events[k].time >= time
    {
      var mid := (lo + hi) / 2;
      SortedAround(events, mid);
      if events[mid].time < time {
        lo := mid + 1;
      } else {
        hi := mid;
      }
    }
    i := lo;
  }

  lemma SortedAround(events: seq<Event>, m: nat)
    requires Sorted(events) && m < |events|
    ensures forall k | 0 <= k < m :: events[k].time <= events[m].time
    ensures forall k | m <= k < |events| :: events[m].time <= events[k].time
  {
    forall k | 0 <= k < |events|
      ensures (k < m ==> events[k].time <= events[m].time) && (m <= k ==> events[m].time <= events[k].time)
    {
      assert k < m ==> InOrder(events, k, m);
      assert m < k ==> InOrder(events, m, k);
    }
  }

  /** Reading the capacity at a moment has something to drop: the identifier is new or its oldest event has expired. */
  predicate Touches(history: map<string, seq<Event>>, window: real, id: string, now: real) {
    id !in history || (history[id] != [] && history[id][0].time < now - window)
  }

  lemma DroppedIsLess(history: map<string, seq<Event>>, id: string, i: nat)
    requires id in history && 0 < i <= |history[id]|
    ensures history[id := history[id][i..]] != history
  {
    assert |history[id := history[id][i..]][id]| < |history[id]|;
  }

  class MovingWindowRateLimiter {
    var maxCost: real
    const windowSeconds: real
    var history: map<string, seq<Event>>
    var costsSum: map<string, real>

    /** All admissions so far, and the last time the clock was read. */
    ghost var admitted: map<string, seq<Admission>>
    ghost var clock: real

    ghost function Picture(): Books
      reads this
    {
      Books(history, costsSum, admitted, clock)
    }

    ghost predicate Valid()
      reads this
    {
      Picture().Sound(windowSeconds)
    }

    constructor (maxCost: real, windowSeconds: real, ghost now: real)
      ensures Valid() && admitted == map[] && this.maxCost == maxCost && this.windowSeconds == windowSeconds
      ensures clock == now && history == map[]
    {
      this.maxCost, this.windowSeconds := maxCost, windowSeconds;
      history, costsSum, admitted, clock := map[], map[], map[], now;
    }

    /** For every identifier, what was admitted in any closed interval of the window's length is at most
        the greatest limit that was in force when it was admitted. */
    lemma WindowLimited(id: string, from: real, limit: real)
      requires Valid() && id in admitted && limit >= 0.0
      requires forall a | a in admitted[id] :: a.event.cost >= 0.0
      requires forall a | a in admitted[id] && from <= a.event.time <= from + windowSeconds :: a.limit <= limit
      ensures CostWithin(Events(admitted[id]), |admitted[id]|, from, from + windowSeconds) <= limit
    {
      assert Picture().SoundAt(windowSeconds, id);
      WindowBound(admitted[id], windowSeconds, |admitted[id]|, from, limit);
    }

    method UpdateMaxCost(maxCost: real)
      requires Valid()
      modifies this`maxCost
      ensures Valid() && this.maxCost == maxCost
    {
      this.maxCost := maxCost;
    }

    /** Drop what has expired and return what is left of the limit. */
    method GetRemainingCapacity(id: string, now: real) returns (remaining: real)
      requires Valid() && clock <= now
      modifies this`history, this`costsSum, this`admitted, this`clock
      ensures Valid() && clock == now && id in history && id in costsSum && id in admitted
      ensures remaining == old(Picture()).Capacity(maxCost, windowSeconds, id, now)
      ensures admitted == if id in old(admitted) then old(admitted) else old(admitted)[id := []]
      ensures costsSum[id] == InWindow(admitted[id], windowSeconds, now)
      ensures history == old(history) <==> !Touches(old(history), windowSeconds, id, now)
      ensures history == old(history) ==> costsSum == old(costsSum)
    {
      if id !in history {
        Register(id, now);
        return maxCost;
      }
      DropExpired(id, now);
      remaining := maxCost - costsSum[id];
      remaining := if remaining > 0.0 then remaining else 0.0;
    }

    method Register(id: string, now: real)
      requires Valid() && clock <= now && id !in history
      modifies this`history, this`costsSum, this`admitted, this`clock
      ensures Valid() && clock == now && id in history && id in costsSum
      ensures admitted == old(admitted)[id := []] && costsSum[id] == 0.0
    {
      OneChanged(Picture(), windowSeconds, id, [], 0.0, [], now);
      history, costsSum, admitted, clock := history[id := []], costsSum[id := 0.0], admitted[id := []], now;
      assert Picture() == old(Picture()).With(id, [], 0.0, [], now);
    }

    method DropExpired(id: string, now: real)
      requires Valid() && clock <= now && id in history
      modifies this`history, this`costsSum, this`clock
      ensures Valid() && clock == now && id in history && id in costsSum && id in admitted
      ensures costsSum[id] == InWindow(admitted[id], windowSeconds, now)
      ensures history == old(history) <==> !Touches(old(history), windowSeconds, id, now)
      ensures history == old(history) ==> costsSum == old(costsSum)
    {
      HistorySorted(Picture(), windowSeconds, id);
      var events := history[id];
      var i := BisectLeft(events, now - windowSeconds);
      ExpireSound(Picture(), windowSeconds, id, i, now);
      if i > 0 {
        DroppedIsLess(history, id, i);
        history, costsSum := history[id := history[id][i..]], costsSum[id := costsSum[id] - Cost(history[id][..i])];
      } else {
        NothingExpired(Picture(), windowSeconds, id, now);
      }
      clock := now;
    }

    method CheckCapacity(id: string, cost: real, now: real) returns (ok: bool)
      requires Valid() && clock <= now
      modifies this`history, this`costsSum, this`admitted, this`clock
      ensures Valid() && clock <= now
      ensures ok <==> cost == 0.0 || cost <= old(Picture()).Capacity(maxCost, windowSeconds, id, now)
      ensures admitted == if cost == 0.0 || id in old(admitted) then old(admitted) else old(admitted)[id := []]
      ensures cost != 0.0 ==> clock == now && id in history && id in costsSum && id in admitted
      ensures cost != 0.0 ==> costsSum[id] == InWindow(admitted[id], windowSeconds, now)
      // A check leaves history and sums alone exactly if there is nothing to register or to drop.
      ensures history == old(history) <==> cost == 0.0 || !Touches(old(history), windowSeconds, id, now)
      ensures history == old(history) ==> costsSum == old(costsSum)
    {
      if cost == 0.0 {
        return true;
      }
      var remaining := GetRemainingCapacity(id, now);
      return cost <= remaining;
    }

    /** Admit a cost if the remaining capacity allows.  The clock is read for the check and again for the record. */
    method TryAcquire(id: string, cost: real, checked: real, recorded: real) returns (ok: bool)
      requires Valid() && clock <= checked <= recorded
      modifies this`history, this`costsSum, this`admitted, this`clock
      ensures Valid() && clock <= recorded
      ensures ok <==> cost == 0.0 || cost <= old(Picture()).Capacity(maxCost, windowSeconds, id, checked)
      ensures admitted ==
              if cost == 0.0 then old(admitted)
              else Admitted(old(admitted), id, if ok then [Admission(Event(recorded, cost), checked, maxCost)] else [])
      // In plain terms: a cost is admitted if it is not positive, or if together with what was admitted in the
      // window that ends at the check it stays within the limit.
      ensures id !in old(admitted) ==> (ok <==> cost == 0.0 || cost <= maxCost)
      ensures id in old(admitted) ==>
                var events := Events(old(admitted)[id]);
                ok <==> cost <= 0.0 || CostWithin(events, |events|, checked - windowSeconds, checked) + cost <= maxCost
      ensures cost != 0.0 && ok ==>
                && id in admitted && |admitted[id]| > 0
                && admitted[id][|admitted[id]| - 1] == Admission(Event(recorded, cost), checked, maxCost)
                && admitted[id][..|admitted[id]| - 1] == if id in old(admitted) then old(admitted)[id] else []
    {
      if cost == 0.0 {
        return true;
      }
      ok := CheckCapacity(id, cost, checked);
      AdmittedInTwoSteps(old(admitted), admitted, id, Admission(Event(recorded, cost), checked, maxCost));
      if ok {
        Record(id, cost, recorded);
      }
    }

    method Record(id: string, cost: real, recorded: real)
      requires Valid() && clock <= recorded && id in history && id in costsSum && id in admitted
      requires costsSum[id] == InWindow(admitted[id], windowSeconds, clock)
      requires cost > 0.0 ==> costsSum[id] + cost <= maxCost
      modifies this`history, this`costsSum, this`admitted, this`clock
      ensures Valid() && clock == recorded
      ensures admitted ==
                old(admitted)[id := old(admitted)[id] + [Admission(Event(recorded, cost), old(clock), maxCost)]]
    {
      ghost var a := Admission(Event(recorded, cost), clock, maxCost);
      AdmitSound(Picture(), windowSeconds, id, a);
      ghost var after := Picture().With(id, history[id] + [a.event], costsSum[id] + cost, admitted[id] + [a], recorded);
      admitted := admitted[id := admitted[id] + [Admission(Event(recorded, cost), clock, maxCost)]];
      history := history[id := history[id] + [Event(recorded, cost)]];
      costsSum, clock := costsSum[id := costsSum[id] + cost], recorded;
      assert Picture() == after;
    }
  }

  /** An admission that has not expired is in the history. */
  lemma RecentIsKept(b: Books, window: real, id: string)
    requires b.Sound(window) && id in b.admitted && |b.admitted[id]| == 1
    requires b.admitted[id][0].event.time >= b.clock - window
    ensures b.history[id] == [b.admitted[id][0].event]
  {
    assert b.SoundAt(window, id);
    var events := Events(b.admitted[id]);
    assert PlacedAt(events, |b.history[id]|, window, b.clock, 0);
    assert b.history[id] != [] ==> KeptAt(b.history[id], events, 0);
  }

  /** A check that modifies the state: with a window of one second it drops an admission of five seconds ago. */
  method CheckThatForgets() returns (limiter: MovingWindowRateLimiter, before: map<string, seq<Event>>)
    ensures limiter.Valid() && limiter.history != before
    ensures "node" in before && before["node"] == [Event(0.0, 1.0)]
    ensures Touches(before, limiter.windowSeconds, "node", 5.0)
  {
    limiter := new MovingWindowRateLimiter(10.0, 1.0, 0.0);
    var ok := limiter.TryAcquire("node", 1.0, 0.0, 0.0);
    before := limiter.history;
    RecentIsKept(limiter.Picture(), 1.0, "node");
    ok := limiter.CheckCapacity("node", 1.0, 5.0);
  }

  /** The admissions once an identifier has been looked at and more has been admitted for it. */
  ghost function Admitted(admitted: map<string, seq<Admission>>, id: string, more: seq<Admission>)
    : map<string, seq<Admission>>
  {
    admitted[id := (if id in admitted then admitted[id] else []) + more]
  }

  lemma AdmittedInTwoSteps(before: map<string, seq<Admission>>, looked: map<string, seq<Admission>>, id: string,
                           a: Admission)
    requires looked == if id in before then before else before[id := []]
    ensures looked == Admitted(before, id, [])
    ensures looked[id := looked[id] + [a]] == Admitted(before, id, [a])
  {
    if id in before {
      assert before[id] + [] == before[id];
      assert before[id := before[id]] == before;
    } else {
      assert [] + [a] == [a];
      assert before[id := []][id := [a]] == before[id := [a]];
    }
  }
}
