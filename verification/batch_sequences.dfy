// The log container (common/batch_sequence.py): a window of consecutive batches with the last
// index of each promoted state.

module BatchSequences {
  import opened Batches
  import opened ExtendedInts

  /** A row as the container hands it out. */
  datatype Record = Record(index: int, batch: Batch, state: State)

  /** The value of a batch sequence. */
  datatype Run = Run(offset: int, batches: seq<Batch>, locked: Option<int>, finalized: Option<int>) {

    function Last(): int {
      offset + |batches| - 1
    }

    /** get_last_index_or_default */
    function LastOr(state: State, default: int): int {
      if state == Locked then (if locked.Some? then locked.value else default)
      else if state == Finalized then (if finalized.Some? then finalized.value else default)
      else if batches == [] then default
      else Last()
    }

    predicate HasAny(state: State) {
      LastOr(state, 0) != 0
    }

    /** get_first_index_or_default */
    function FirstOr(state: State, default: int): int {
      if HasAny(state) then offset else default
    }

    /** get_or_empty */
    function Get(index: int): Option<Batch> {
      if index < offset || index > Last() then None else Some(batches[index - offset])
    }

    /** The highest state whose last index covers this one. */
    function StateAt(index: int): State {
      if index <= LastOr(Finalized, 0) then Finalized
      else if index <= LastOr(Locked, 0) then Locked
      else Sequenced
    }

    function Records(): (rows: seq<Record>)
      ensures |rows| == |batches|
      ensures forall i | 0 <= i < |rows| :: rows[i] == Record(offset + i, batches[i], StateAt(offset + i))
    {
      seq(|batches|, i requires 0 <= i < |batches| => Record(offset + i, batches[i], StateAt(offset + i)))
    }

    function Empty(): Run {
      Run(offset, [], None, None)
    }

    /** Only the last indices are stored, so they have to be ordered and inside the window. */
    ghost predicate WellFormed() {
      && offset >= 1
      && (finalized.Some? ==> locked.Some? && offset <= finalized.value <= locked.value)
      && (locked.Some? ==> offset <= locked.value <= Last())
    }

    /** The first n rows. */
    function Take(n: nat): Run
      requires n <= |batches|
    {
      if n == 0 then Empty()
      else Run(offset, batches[..n], Clipped(locked, batches[..n], offset, offset + n - 1),
               Clipped(finalized, batches[..n], offset, offset + n - 1))
    }

    predicate OnlyFinalized() {
      batches == [] || Last() <= LastOr(Finalized, 0)
    }

    /** promote: raise the last index of every state up to the target. */
    function Promoted(lastIndex: int, target: State): Run {
      var feasible := Min(lastIndex, LastOr(Sequenced, 0));
      if feasible <= 0 then this
      else
        this.(locked := if Locked.BeforeOrEqual(target) then Raised(locked, feasible) else locked,
              finalized := if Finalized.BeforeOrEqual(target) then Raised(finalized, feasible) else finalized)
    }

    predicate CanExtend(other: Run) {
      other.batches == [] || (OnlyFinalized() && (batches == [] || other.offset == Last() + 1))
    }

    /** extend: append the other batches, then take over its promotions. */
    function Extended(other: Run): Run {
      if other.batches == [] then this
      else if batches == [] then other
      else
        var all := this.(batches := batches + other.batches);
        var withLocked := if other.locked.Some? then all.Promoted(other.locked.value, Locked) else all;
        if other.finalized.Some? then withLocked.Promoted(other.finalized.value, Finalized) else withLocked
    }

    /** filter, branch by branch. */
    function Filter(target: State, exclude: Option<State>, start: Option<int>, end: Option<int>): Run {
      if exclude.Some? && exclude.value.BeforeOrEqual(target) then Empty()
      else
        var from := FromOptionalInt(start, NegInf);
        var upTo := FromOptionalInt(end, PosInf);
        if from.AtLeast(upTo) then Empty()
        else
          var targetLast := FromOptionalInt(if target == Sequenced then None else Some(LastOr(target, 0)), PosInf);
          if targetLast == Fin(0) then Empty()
          else
            var excluded := FromOptionalInt(if exclude.None? then None else Some(LastOr(exclude.value, 0)), NegInf);
            var excludedLast := if excluded == Fin(0) then NegInf else excluded;
            var first := Larger(Larger(from, excludedLast), Fin(offset - 1)).Plus(1);
            var stop := Smaller(upTo, targetLast).Plus(1);
            Between(first, stop)
    }

    function Between(first: ExtendedInt, stop: ExtendedInt): Run {
      if first.AtLeast(stop) then Empty()
      else Cut(first.Minus(offset).ToOptionalInt(), stop.Minus(offset).ToOptionalInt())
    }

    /** The tail of filter: slice, renumber, and clip the last indices. */
    function Cut(lo: Option<int>, hi: Option<int>): Run {
      var kept := Slice(batches, lo, hi);
      var firstIndex := offset + (if lo.Some? then lo.value else 0);
      var lastIndex := firstIndex + |kept| - 1;
      Run(firstIndex, kept, Clipped(locked, kept, firstIndex, lastIndex),
          Clipped(finalized, kept, firstIndex, lastIndex))
    }

    /** What filter(start_exclusive=k) leaves. */
    function After(k: int): Run {
      if k < offset then this
      else if k >= Last() then Run(k + 1, [], None, None)
      else Run(k + 1, batches[k + 1 - offset..], Clipped(locked, batches[k + 1 - offset..], k + 1, Last()),
               Clipped(finalized, batches[k + 1 - offset..], k + 1, Last()))
    }

    /** What filter(end_inclusive=k) leaves. */
    function UpTo(k: int): Run {
      if k < offset then Empty() else Take(Min(k + 1 - offset, |batches|))
    }
  }

  function Raised(stored: Option<int>, index: int): Option<int> {
    Some(Max(if stored.Some? then stored.value else index, index))
  }

  function Clipped(stored: Option<int>, kept: seq<Batch>, first: int, last: int): Option<int> {
    if stored.Some? && kept != [] && stored.value >= first then Some(Min(last, stored.value)) else None
  }

  /** Where Python's slicing puts a bound: negative ones count from the end, all are clamped. */
  function SliceBound(bound: Option<int>, absent: nat, length: nat): (k: nat)
    requires absent <= length
    ensures k <= length
  {
    match bound
    case None => absent
    case Some(b) => if b < 0 then Max(0, length + b) else Min(b, length)
  }

  function Slice(s: seq<Batch>, lo: Option<int>, hi: Option<int>): seq<Batch> {
    var i := SliceBound(lo, 0, |s|);
    var j := SliceBound(hi, |s|, |s|);
    if i <= j then s[i..j] else []
  }

  /** The rows a filter call asks for, in terms of indices only. */
  ghost predicate Selects(run: Run, target: State, exclude: Option<State>, start: Option<int>, end: Option<int>,
                          i: int) {
    && (start.Some? ==> start.value < i)
    && (end.Some? ==> i <= end.value)
    && (exclude.Some? ==> run.LastOr(exclude.value, 0) < i)
    && (target != Sequenced ==> i <= run.LastOr(target, 0))
  }

  ghost function LowestKept(run: Run, exclude: Option<State>, start: Option<int>): int {
    Max(run.offset, Max(if start.Some? then start.value + 1 else run.offset,
                        if exclude.Some? then run.LastOr(exclude.value, 0) + 1 else run.offset))
  }

  ghost function HighestKept(run: Run, target: State, end: Option<int>): int {
    Min(run.Last(), Min(if end.Some? then end.value else run.Last(),
                        if target != Sequenced then run.LastOr(target, 0) else run.Last()))
  }

  /** r is the part of run between two indices, or an empty sequence when there is nothing between. */
  ghost predicate IsWindow(run: Run, r: Run, lo: int, hi: int)
    requires run.offset <= lo && hi <= run.Last()
  {
    if lo <= hi
    then r == Run(lo, run.batches[lo - run.offset..hi + 1 - run.offset],
                  Clipped(run.locked, r.batches, lo, hi), Clipped(run.finalized, r.batches, lo, hi))
    else r == Run(r.offset, [], None, None) && r.offset >= run.offset
  }

  lemma WindowMeaning(run: Run, r: Run, lo: int, hi: int)
    requires run.WellFormed() && run.offset <= lo && hi <= run.Last() && IsWindow(run, r, lo, hi)
    ensures r.WellFormed()
    ensures forall i :: r.Get(i).Some? <==> lo <= i <= hi
    ensures forall i | lo <= i <= hi :: r.Get(i) == run.Get(i) && r.StateAt(i) == run.StateAt(i)
  {
    if lo <= hi {
      var kept := run.batches[lo - run.offset..hi + 1 - run.offset];
      assert |kept| == hi - lo + 1 && kept != [] && r.Last() == hi;
    }
  }

  /** A cut is a window that ends where the bound says. */
  lemma CutWindow(run: Run, lo: int, stop: ExtendedInt, hi: int)
    requires run.WellFormed() && run.offset <= lo && !stop.NegInf?
    requires hi == if stop.Fin? then Min(run.Last(), stop.value - 1) else run.Last()
    ensures IsWindow(run, run.Between(Fin(lo), stop), lo, hi)
  {
  }

  ghost function Stop(run: Run, target: State, end: Option<int>): ExtendedInt {
    Smaller(FromOptionalInt(end, PosInf),
            FromOptionalInt(if target == Sequenced then None else Some(run.LastOr(target, 0)), PosInf)).Plus(1)
  }

  lemma FilterStart(run: Run, exclude: Option<State>, start: Option<int>)
    requires run.WellFormed()
    ensures var excluded := FromOptionalInt(if exclude.None? then None else Some(run.LastOr(exclude.value, 0)), NegInf);
      Larger(Larger(FromOptionalInt(start, NegInf), if excluded == Fin(0) then NegInf else excluded),
             Fin(run.offset - 1)).Plus(1)
      == Fin(LowestKept(run, exclude, start))
  {
  }

  /** The infinities and branches of filter come down to one window of plain integers. */
  lemma FilterWindow(run: Run, target: State, exclude: Option<State>, start: Option<int>, end: Option<int>)
    requires run.WellFormed()
    requires target != Initialized && exclude != Some(Initialized)
    ensures IsWindow(run, run.Filter(target, exclude, start, end),
                     LowestKept(run, exclude, start), HighestKept(run, target, end))
  {
    if EarlyExit(run, target, exclude, start, end) {
      NothingKept(run, target, exclude, start, end);
      EarlyFilter(run, target, exclude, start, end);
    } else {
      FilterIsBetween(run, target, exclude, start, end);
      StopIsHighest(run, target, end);
      CutWindow(run, LowestKept(run, exclude, start), Stop(run, target, end), HighestKept(run, target, end));
    }
  }

  lemma EarlyFilter(run: Run, target: State, exclude: Option<State>, start: Option<int>, end: Option<int>)
    requires EarlyExit(run, target, exclude, start, end)
    ensures run.Filter(target, exclude, start, end) == run.Empty()
  {
  }

  lemma StopIsHighest(run: Run, target: State, end: Option<int>)
    requires target != Initialized
    ensures var stop := Stop(run, target, end);
      !stop.NegInf? && HighestKept(run, target, end) ==
          if stop.Fin? then Min(run.Last(), stop.value - 1) else run.Last()
  {
  }

  lemma FilterIsBetween(run: Run, target: State, exclude: Option<State>, start: Option<int>, end: Option<int>)
    requires run.WellFormed()
    requires !EarlyExit(run, target, exclude, start, end)
    ensures run.Filter(target, exclude, start, end) ==
            run.Between(Fin(LowestKept(run, exclude, start)), Stop(run, target, end))
  {
    FilterStart(run, exclude, start);
  }

  /** The early returns of filter. */
  ghost predicate EarlyExit(run: Run, target: State, exclude: Option<State>, start: Option<int>, end: Option<int>) {
    || (exclude.Some? && exclude.value.BeforeOrEqual(target))
    || FromOptionalInt(start, NegInf).AtLeast(FromOptionalInt(end, PosInf))
    || (target != Sequenced && run.LastOr(target, 0) == 0)
  }

  lemma NothingKept(run: Run, target: State, exclude: Option<State>, start: Option<int>, end: Option<int>)
    requires run.WellFormed()
    requires target != Initialized && exclude != Some(Initialized)
    requires EarlyExit(run, target, exclude, start, end)
    ensures LowestKept(run, exclude, start) > HighestKept(run, target, end)
  {
  }

  /** A filtered sequence holds the selected rows and nothing else, with index, batch and state kept. */
  lemma FilterMeaning(run: Run, target: State, exclude: Option<State>, start: Option<int>, end: Option<int>)
    requires run.WellFormed()
    requires target != Initialized && exclude != Some(Initialized)
    ensures var r := run.Filter(target, exclude, start, end);
      && r.WellFormed()
      && (forall i :: r.Get(i).Some? <==> run.Get(i).Some? && Selects(run, target, exclude, start, end, i))
      && (forall i | r.Get(i).Some? :: r.Get(i) == run.Get(i) && r.StateAt(i) == run.StateAt(i))
  {
    var r := run.Filter(target, exclude, start, end);
    var lo, hi := LowestKept(run, exclude, start), HighestKept(run, target, end);
    FilterWindow(run, target, exclude, start, end);
    WindowMeaning(run, r, lo, hi);
    forall i
      ensures run.Get(i).Some? && Selects(run, target, exclude, start, end, i) <==> lo <= i <= hi
    {
    }
  }

  lemma AfterIsFilter(run: Run, k: int)
    requires run.WellFormed()
    ensures run.Filter(Sequenced, None, Some(k), None) == run.After(k)
    ensures IsWindow(run, run.After(k), Max(run.offset, k + 1), run.Last())
  {
    FilterIsBetween(run, Sequenced, None, Some(k), None);
    FilterWindow(run, Sequenced, None, Some(k), None);
    assert LowestKept(run, None, Some(k)) == Max(run.offset, k + 1) && Stop(run, Sequenced, None) == PosInf;
    AfterIsCut(run, k);
  }

  lemma AfterIsCut(run: Run, k: int)
    requires run.WellFormed()
    ensures run.Between(Fin(Max(run.offset, k + 1)), PosInf) == run.After(k)
  {
    assert k < run.offset ==> run.batches[0..|run.batches|] == run.batches;
  }

  lemma UpToIsFilter(run: Run, k: int)
    requires run.WellFormed()
    ensures run.Filter(Sequenced, None, None, Some(k)) == run.UpTo(k)
    ensures IsWindow(run, run.UpTo(k), run.offset, Min(run.Last(), k))
  {
    FilterWindow(run, Sequenced, None, None, Some(k));
    if k < run.offset {
      FilterIsBetween(run, Sequenced, None, None, Some(k));
    } else if run.batches == [] {
      FilterIsBetween(run, Sequenced, None, None, Some(k));
    }
  }

  /** Cutting at an index and joining the two parts gives back every row. */
  lemma FilterSplit(run: Run, k: int)
    requires run.WellFormed()
    ensures run.Filter(Sequenced, None, None, Some(k)).Records() +
              run.Filter(Sequenced, None, Some(k), None).Records() == run.Records()
  {
    AfterIsFilter(run, k);
    UpToIsFilter(run, k);
    SplitRows(run, run.UpTo(k), run.After(k), k);
  }

  lemma SplitRows(run: Run, low: Run, high: Run, k: int)
    requires run.WellFormed()
    requires IsWindow(run, low, run.offset, Min(run.Last(), k))
    requires IsWindow(run, high, Max(run.offset, k + 1), run.Last())
    ensures low.Records() + high.Records() == run.Records()
  {
    WindowRows(run, low, run.offset, Min(run.Last(), k));
    WindowRows(run, high, Max(run.offset, k + 1), run.Last());
    if run.offset <= k < run.Last() {
      var m := k + 1 - run.offset;
      assert low.Records() == run.Records()[..m] && high.Records() == run.Records()[m..];
    }
  }

  /** The rows of a window are a slice of the rows. */
  lemma WindowRows(run: Run, r: Run, lo: int, hi: int)
    requires run.WellFormed() && run.offset <= lo && hi <= run.Last() && IsWindow(run, r, lo, hi)
    ensures r.Records() == if lo <= hi then run.Records()[lo - run.offset..hi + 1 - run.offset] else []
  {
    if lo <= hi {
      var rows, part := r.Records(), run.Records()[lo - run.offset..hi + 1 - run.offset];
      forall j | 0 <= j < hi - lo + 1
        ensures rows[j] == part[j]
      {
        WindowRow(run, r, lo, hi, j);
      }
      assert |rows| == |part|;
    }
  }

  lemma WindowRow(run: Run, r: Run, lo: int, hi: int, j: int)
    requires run.WellFormed() && run.offset <= lo && hi <= run.Last() && IsWindow(run, r, lo, hi)
    requires 0 <= j < hi - lo + 1
    ensures |r.batches| == hi - lo + 1 && r.offset == lo
    ensures r.batches[j] == run.batches[lo - run.offset + j]
    ensures r.StateAt(lo + j) == run.StateAt(lo + j)
  {
  }

  /** Extending concatenates the rows, states included, and keeps the sequence well formed. */
  lemma ExtendConcatenates(a: Run, b: Run)
    requires a.WellFormed() && b.WellFormed() && a.CanExtend(b)
    ensures a.Extended(b).WellFormed()
    ensures a.Extended(b).Records() == a.Records() + b.Records()
  {
    if a.batches != [] && b.batches != [] {
      ExtendStates(a, b);
    } else {
      assert a.Records() == [] || b.Records() == [];
    }
  }

  lemma ExtendStates(a: Run, b: Run)
    requires a.WellFormed() && b.WellFormed() && a.CanExtend(b) && a.batches != [] && b.batches != []
    ensures a.Extended(b).WellFormed()
    ensures a.Extended(b).offset == a.offset && a.Extended(b).batches == a.batches + b.batches
    ensures forall i | a.offset <= i <= a.Last() :: a.Extended(b).StateAt(i) == a.StateAt(i)
    ensures forall i | b.offset <= i <= b.Last() :: a.Extended(b).StateAt(i) == b.StateAt(i)
  {
  }

  /** promote keeps a sequence well formed exactly when it cannot create a last index below the window. */
  lemma PromoteWellFormed(run: Run, lastIndex: int, target: State)
    requires run.WellFormed()
    ensures var feasible := Min(lastIndex, run.LastOr(Sequenced, 0));
      run.Promoted(lastIndex, target).WellFormed() <==>
      || !Locked.BeforeOrEqual(target)
      || feasible <= 0
      || feasible >= run.offset
      || run.LastOr(target, 0) > 0
  {
  }

  /** After a promotion exactly the rows up to the index are in the target state or above. */
  lemma PromoteMeaning(run: Run, lastIndex: int, target: State, i: int)
    requires run.WellFormed() && run.offset <= lastIndex <= run.Last()
    requires target == Locked || target == Finalized
    requires run.offset <= i <= run.Last()
    ensures run.Promoted(lastIndex, target).StateAt(i) ==
            if i <= lastIndex && !target.BeforeOrEqual(run.StateAt(i)) then target else run.StateAt(i)
  {
  }

  /** The mutable container: its size is cached and its last indices are updated in place. */
  class BatchSequence {
    var indexOffset: int
    var batches: seq<Batch>
    var lockedLast: Option<int>
    var finalizedLast: Option<int>
    var sizeKb: real

    ghost predicate Valid()
      reads this
    {
      sizeKb == TotalKb(Bodies(batches))
    }

    function View(): Run
      reads this
    {
      Run(indexOffset, batches, lockedLast, finalizedLast)
    }

    constructor (run: Run)
      ensures Valid() && View() == run
    {
      indexOffset, batches, lockedLast, finalizedLast := run.offset, run.batches, run.locked, run.finalized;
      sizeKb := TotalKb(Bodies(run.batches));
    }

    method Append(batch: Batch) returns (last: int)
      requires Valid()
      modifies this
      ensures Valid()
      ensures View() == old(View()).(batches := old(batches) + [batch])
      ensures last == View().Last()
    {
      var more := batches + [batch];
      assert Bodies(more) == Bodies(batches) + [batch.body];
      TotalKbSnoc(Bodies(batches), batch.body);
      batches := more;
      sizeKb := sizeKb + SizeKb(batch.body);
      last := View().LastOr(Sequenced, 0);
    }

    /** Overwrite everything but the body of one stored batch. */
    method UpdateAt(index: int, batch: Batch)
      requires Valid() && View().Get(index).Some? && batch.body == View().Get(index).value.body
      modifies this`batches
      ensures Valid()
      ensures View() == old(View()).(batches := old(batches)[index - indexOffset := batch])
    {
      assert Bodies(batches[index - indexOffset := batch]) == Bodies(batches);
      batches := batches[index - indexOffset := batch];
    }

    method Promote(lastIndex: int, target: State)
      requires Valid()
      modifies this`lockedLast, this`finalizedLast
      ensures Valid()
      ensures View() == old(View()).Promoted(lastIndex, target)
    {
      var feasible := Min(lastIndex, View().LastOr(Sequenced, 0));
      if feasible <= 0 {
        return;
      }
      var i := 0;
      var states := [Sequenced, Locked, Finalized];
      while i < |states|
        invariant 0 <= i <= |states|
        invariant lockedLast ==
                    if i > 1 && Locked.BeforeOrEqual(target) then Raised(old(lockedLast), feasible) else old(lockedLast)
        invariant finalizedLast ==
                    if i > 2 && Finalized.BeforeOrEqual(target) then Raised(old(finalizedLast), feasible)
                    else old(finalizedLast)
      {
        var state := states[i];
        if state != Sequenced && state.BeforeOrEqual(target) {
          if state == Locked {
            lockedLast := Raised(lockedLast, feasible);
          } else {
            finalizedLast := Raised(finalizedLast, feasible);
          }
        }
        i := i + 1;
      }
    }

    /** False stands for the ValueError; nothing has changed then. */
    method Extend(other: BatchSequence) returns (ok: bool)
      requires Valid() && other.Valid()
      modifies this
      ensures Valid()
      ensures ok <==> old(View()).CanExtend(old(other.View()))
      ensures View() == if ok then old(View()).Extended(old(other.View())) else old(View())
    {
      var addition := other.View();
      if |addition.batches| == 0 {
        return true;
      }
      if !View().OnlyFinalized() {
        return false;
      }
      if |batches| == 0 {
        indexOffset, batches, lockedLast, finalizedLast, sizeKb :=
          addition.offset, addition.batches, addition.locked, addition.finalized, other.sizeKb;
        return true;
      }
      if addition.offset != View().LastOr(Sequenced, 0) + 1 {
        return false;
      }
      var i := 0;
      while i < |addition.batches|
        invariant 0 <= i <= |addition.batches|
        invariant Valid()
        invariant View() == old(View()).(batches := old(batches) + addition.batches[..i])
      {
        var _ := Append(addition.batches[i]);
        i := i + 1;
      }
      assert addition.batches[..i] == addition.batches;
      if addition.locked.Some? {
        Promote(addition.locked.value, Locked);
      }
      if addition.finalized.Some? {
        Promote(addition.finalized.value, Finalized);
      }
      return true;
    }

    method FilterBy(target: State, exclude: Option<State>, start: Option<int>, end: Option<int>)
      returns (r: BatchSequence)
      ensures fresh(r) && r.Valid()
      ensures r.View() == View().Filter(target, exclude, start, end)
    {
      r := new BatchSequence(View().Filter(target, exclude, start, end));
    }

    /** filter(start_exclusive=k) */
    method KeepAfter(k: int) returns (r: BatchSequence)
      requires View().WellFormed()
      ensures fresh(r) && r.Valid()
      ensures r.View() == View().After(k)
    {
      r := FilterBy(Sequenced, None, Some(k), None);
      AfterIsFilter(View(), k);
    }

    /** filter(end_inclusive=k) */
    method KeepUpTo(k: int) returns (r: BatchSequence)
      requires View().WellFormed()
      ensures fresh(r) && r.Valid()
      ensures r.View() == View().UpTo(k)
    {
      r := FilterBy(Sequenced, None, None, Some(k));
      UpToIsFilter(View(), k);
    }

    /** filter with a target state and plain bounds */
    method KeepBetween(target: State, start: Option<int>, end: Option<int>) returns (r: BatchSequence)
      requires View().WellFormed() && target != Initialized
      ensures fresh(r) && r.Valid()
      ensures IsWindow(View(), r.View(), LowestKept(View(), None, start), HighestKept(View(), target, end))
    {
      r := FilterBy(target, None, start, end);
      FilterWindow(View(), target, None, start, end);
    }

    /** The longest prefix that fits a positive limit, and nothing for a limit that is not positive. */
    method TruncateBySize(limitKb: real) returns (r: BatchSequence)
      requires Valid() && View().WellFormed()
      ensures r == this || fresh(r)
      ensures r.Valid() && r.View().WellFormed()
      ensures limitKb <= 0.0 ==> r.View().batches == []
      ensures limitKb > 0.0 ==> IsLongestFit(Bodies(batches), limitKb, |r.View().batches|)
      ensures |r.View().batches| <= |batches| && r.View() == View().Take(|r.View().batches|)
    {
      if limitKb <= 0.0 || |batches| == 0 {
        r := new BatchSequence(View().Empty());
        return;
      }
      if limitKb >= sizeKb {
        TakeAll(View());
        return this;
      }
      var total := 0.0;
      var endIndex := indexOffset - 1;
      var i := 0;
      while i < |batches|
        invariant 0 <= i <= |batches|
        invariant endIndex == indexOffset - 1 + i
        invariant total == KbTo(Bodies(batches), i) && total <= limitKb
      {
        var size := SizeKb(batches[i].body);
        if total + size > limitKb {
          break;
        }
        total := total + size;
        endIndex := indexOffset + i;
        i := i + 1;
      }
      r := UpToEnd(endIndex, i);
    }

    /** The cut at the last index that fits, if there is one. */
    method UpToEnd(endIndex: int, n: nat) returns (r: BatchSequence)
      requires Valid() && View().WellFormed() && n <= |batches| && endIndex == indexOffset - 1 + n
      ensures fresh(r) && r.Valid() && r.View().WellFormed()
      ensures |r.View().batches| == n && r.View() == View().Take(n)
    {
      if endIndex > indexOffset - 1 {
        r := KeepUpTo(endIndex);
        TakeMeaning(View(), n);
      } else {
        r := new BatchSequence(View().Empty());
      }
    }
  }

  /** Taking a prefix keeps the first rows with their states. */
  lemma TakeMeaning(run: Run, n: nat)
    requires run.WellFormed() && n <= |run.batches|
    ensures run.Take(n).WellFormed()
    ensures run.Take(n).Records() == run.Records()[..n]
  {
    if n > 0 {
      WindowRows(run, run.Take(n), run.offset, run.offset + n - 1);
    }
  }

  lemma TakeAll(run: Run)
    requires run.WellFormed()
    ensures run.Take(|run.batches|) == run
  {
    assert run.batches[..|run.batches|] == run.batches;
  }
}
