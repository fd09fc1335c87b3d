// Choosing the next sync point from what the nodes reported (sequencer/tasks.py): the greatest
// index whose reporters, together with the sequencer, hold the threshold share of the stake.

module SyncPoints {
  import opened Batches
  import opened Certificates

  /** What a node last reported: how far it got, and the chaining hash there. */
  datatype Report = Report(node: NodeId, index: int, chainingHash: Hash)

  /** The nodes that got at least as far. */
  function Party(reports: seq<Report>, index: int): set<NodeId> {
    set i | 0 <= i < |reports| && reports[i].index >= index :: reports[i].node
  }

  ghost function AsSet(reports: seq<Report>): set<Report> {
    set x | x in reports
  }

  ghost function PartyIn(all: set<Report>, index: int): set<NodeId> {
    set x | x in all && x.index >= index :: x.node
  }

  ghost predicate Backed(net: Network, own: NodeId, all: set<Report>, index: int)
    requires net.Total() != 0.0
  {
    Percent(net, net.StakeOf(PartyIn(all, index)) + net.StakeOf({own})) >= net.threshold
  }

  /** A report above the last sync point that is backed by enough stake, while none above it is. */
  ghost predicate IsChosen(net: Network, own: NodeId, all: set<Report>, last: int, r: Report)
    requires net.Total() != 0.0
  {
    && r in all && r.index > last && Backed(net, own, all, r.index)
    && forall x | x in all && x.index > r.index :: !Backed(net, own, all, x.index)
  }

  /** If a report above the last sync point is backed at all, one is chosen. */
  lemma {:induction false} SomeChosen(net: Network, own: NodeId, all: set<Report>, last: int, x: Report)
    returns (r: Report)
    requires net.Total() != 0.0 && x in all && x.index > last && Backed(net, own, all, x.index)
    ensures IsChosen(net, own, all, last, r)
    decreases |set y | y in all && y.index > x.index|
  {
    r := x;
    if y :| y in all && y.index > x.index && Backed(net, own, all, y.index) {
      var fewer, more := set z | z in all && z.index > y.index, set z | z in all && z.index > x.index;
      assert y in more && y !in fewer && fewer <= more;
      ProperSubset(fewer, more, y);
      r := SomeChosen(net, own, all, last, y);
    }
  }

  lemma ProperSubset<T>(fewer: set<T>, more: set<T>, y: T)
    requires fewer <= more && y in more && y !in fewer
    ensures |fewer| < |more|
  {
    Smaller(fewer, more - {y});
  }

  lemma {:induction false} Smaller<T>(fewer: set<T>, more: set<T>)
    requires fewer <= more
    ensures |fewer| <= |more|
  {
    if y :| y in fewer {
      Smaller(fewer - {y}, more - {y});
    }
  }

  function Above(reports: seq<Report>, last: int): (r: seq<Report>)
    ensures forall x :: x in r <==> x in reports && x.index > last
  {
    if reports == [] then []
    else
      var report := reports[|reports| - 1];
      Above(reports[..|reports| - 1], last) + if report.index > last then [report] else []
  }

  ghost predicate Descending(reports: seq<Report>) {
    forall i, j | 0 <= i < j < |reports| :: reports[i].index >= reports[j].index
  }

  method Insert(sorted: seq<Report>, r: Report) returns (more: seq<Report>)
    requires Descending(sorted)
    ensures Descending(more)
    ensures forall x :: x in more <==> x in sorted || x == r
  {
    var p := |sorted|;
    while p > 0 && sorted[p - 1].index < r.index
      invariant 0 <= p <= |sorted|
      invariant forall k | p <= k < |sorted| :: sorted[k].index < r.index
    {
      p := p - 1;
    }
    more := sorted[..p] + [r] + sorted[p..];
    InsertedDescending(sorted, r, p);
  }

  lemma InsertedDescending(sorted: seq<Report>, r: Report, p: nat)
    requires Descending(sorted) && p <= |sorted|
    requires p > 0 ==> sorted[p - 1].index >= r.index
    requires forall k | p <= k < |sorted| :: sorted[k].index < r.index
    ensures Descending(sorted[..p] + [r] + sorted[p..])
    ensures forall x :: x in sorted[..p] + [r] + sorted[p..] <==> x in sorted || x == r
  {
    var more := sorted[..p] + [r] + sorted[p..];
    assert |more| == |sorted| + 1 && more[p] == r;
    assert forall k | 0 <= k < p :: more[k] == sorted[k];
    assert forall k | p < k < |more| :: more[k] == sorted[k - 1];
    InsertedMembers(sorted, r, p);
  }

  lemma InsertedMembers(sorted: seq<Report>, r: Report, p: nat)
    requires p <= |sorted|
    ensures forall x :: x in sorted[..p] + [r] + sorted[p..] <==> x in sorted || x == r
  {
    assert sorted == sorted[..p] + sorted[p..];
  }

  method SortDescending(reports: seq<Report>) returns (sorted: seq<Report>)
    ensures Descending(sorted)
    ensures forall x :: x in sorted <==> x in reports
  {
    sorted := [];
    for i := 0 to |reports|
      invariant Descending(sorted)
      invariant forall x :: x in sorted <==> x in reports[..i]
    {
      sorted := Insert(sorted, reports[i]);
      assert reports[..i + 1] == reports[..i] + [reports[i]];
    }
    assert reports[..|reports|] == reports;
  }

  lemma PartyMembers(reports: seq<Report>, all: set<Report>, index: int)
    requires forall x :: x in reports && x.index >= index <==> x in all && x.index >= index
    ensures Party(reports, index) == PartyIn(all, index)
  {
    forall x | x in all && x.index >= index
      ensures x.node in Party(reports, index)
    {
      var i :| 0 <= i < |reports| && reports[i] == x;
    }
  }

  /** find_locked_sync_point and find_finalized_sync_point: the report with the greatest index above the
      last sync point that is backed by enough stake, and who else got that far. */
  method FindSyncPoint(net: Network, own: NodeId, reports: seq<Report>, last: int)
    returns (found: Option<Report>, party: set<NodeId>)
    requires net.Valid()
    ensures net.Total() > 0.0
    ensures found.Some? <==> exists x :: IsChosen(net, own, AsSet(reports), last, x)
    ensures found.Some? ==> IsChosen(net, own, AsSet(reports), last, found.value)
    ensures found.Some? ==> party == PartyIn(AsSet(reports), found.value.index)
  {
    TotalPositive(net);
    found, party := None, {};
    ghost var all := AsSet(reports);
    var sorted := SortDescending(Above(reports, last));
    var i := 0;
    while i < |sorted|
      invariant 0 <= i <= |sorted|
      invariant forall k | 0 <= k < i :: !Backed(net, own, all, sorted[k].index)
    {
      var asked := Party(sorted, sorted[i].index);
      PartyMembers(sorted, all, sorted[i].index);
      if Percent(net, net.StakeOf(asked) + net.StakeOf({own})) >= net.threshold {
        forall x | x in all && x.index > sorted[i].index
          ensures !Backed(net, own, all, x.index)
        {
          var k :| 0 <= k < |sorted| && sorted[k] == x;
        }
        assert IsChosen(net, own, all, last, sorted[i]);
        return Some(sorted[i]), asked;
      }
      i := i + 1;
    }
  }

  /** Fewer nodes got further, so every index above the chosen one falls short, reported or not. */
  lemma ChosenIsGreatest(net: Network, own: NodeId, all: set<Report>, last: int, chosen: Report, index: int)
    requires net.Valid() && net.Total() > 0.0 && IsChosen(net, own, all, last, chosen) && index > chosen.index
    requires Percent(net, net.StakeOf({own})) < net.threshold
    ensures !Backed(net, own, all, index)
  {
    if exists x :: x in all && x.index >= index {
      var x := Lowest(all, index);
      assert PartyIn(all, x.index) == PartyIn(all, index);
    } else {
      assert PartyIn(all, index) == {};
      StakeEmpty(net.attesting);
    }
  }

  lemma {:induction false} Lowest(all: set<Report>, index: int) returns (x: Report)
    requires exists y :: y in all && y.index >= index
    ensures x in all && x.index >= index
    ensures forall y | y in all && y.index >= index :: y.index >= x.index
    decreases |all|
  {
    x :| x in all && x.index >= index;
    if exists y :: y in all - {x} && y.index >= index {
      var z := Lowest(all - {x}, index);
      x := if z.index < x.index then z else x;
    }
  }
}
