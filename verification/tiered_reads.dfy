// Reading the log across disk and memory under a size limit
// (get_global_operational_batch_sequence in common/db.py): what such a read returns, in terms of
// the one log that disk and memory stand for.

module TieredReads {
  import opened Batches
  import opened BatchSequences
  import opened ReplicatedLog
  import opened Snapshots
  import opened Images

  ghost function LastIn(log: Log, state: State): int {
    if state == Finalized then log.LastFinalized() else if state == Locked then log.locked else |log.entries|
  }

  /** The entries behind an index that have reached a state. */
  ghost function Wanted(log: Log, state: State, after: int): (r: seq<Batch>)
    requires log.Ordered()
  {
    var a := Max(after, 0);
    if a < LastIn(log, state) then log.entries[a..LastIn(log, state)] else []
  }

  /** Those are the entries behind the index whose state is the wanted one or a later one, in the log's order. */
  lemma WantedExactly(log: Log, state: State, after: int, i: int)
    requires log.Ordered() && state != Initialized && 1 <= i <= |log.entries|
    ensures var a, wanted := Max(after, 0), Wanted(log, state, after);
      && (a < i <= a + |wanted| <==> i > after && state.BeforeOrEqual(log.StateOf(i)))
      && (a < i <= a + |wanted| ==> wanted[i - a - 1] == log.At(i))
  {
  }

  /** The first n bodies use up the limit. */
  ghost predicate Reaches(bodies: seq<Body>, limitKb: real, n: int) {
    0 < n <= |bodies| && KbTo(bodies, n) >= limitKb
  }

  /** Where loading from disk stops, counted in bodies behind an index: at the first chunk end by which
      they use up the limit.  It does not stop when memory takes over first. */
  ghost predicate IsCut(ends: seq<int>, base: nat, after: nat, bodies: seq<Body>, limitKb: real, cut: Option<nat>) {
    match cut
    case None => after >= base || forall e | e in ends :: !Reaches(bodies, limitKb, e - after)
    case Some(c) =>
      && after < base && after + c in ends && Reaches(bodies, limitKb, c)
      && forall e | e in ends && e < after + c :: !Reaches(bodies, limitKb, e - after)
  }

  lemma CutUnique(ends: seq<int>, base: nat, after: nat, bodies: seq<Body>, limitKb: real, c: Option<nat>,
                  d: Option<nat>)
    requires IsCut(ends, base, after, bodies, limitKb, c) && IsCut(ends, base, after, bodies, limitKb, d)
    ensures c == d
  {
  }

  /** How many bodies come back: as many as fit of what was loaded. */
  ghost predicate StopsAt(bodies: seq<Body>, limitKb: real, cut: Option<nat>, n: int) {
    if cut.Some? then cut.value <= |bodies| && IsLongestFit(bodies[..cut.value], limitKb, n)
    else IsLongestFit(bodies, limitKb, n)
  }

  /** A read of n bodies from a log with the given chunk ends on disk: none for a limit that is not positive. */
  ghost predicate ReadsTo(ends: seq<int>, base: nat, after: nat, bodies: seq<Body>, limitKb: real, n: int) {
    if limitKb <= 0.0 then n == 0
    else exists cut: Option<nat> :: IsCut(ends, base, after, bodies, limitKb, cut) && StopsAt(bodies, limitKb, cut, n)
  }

  /** So how much comes back is fixed by the log, the chunk ends and the limit. */
  lemma ReadUnique(ends: seq<int>, base: nat, after: nat, bodies: seq<Body>, limitKb: real, m: int, n: int)
    requires ReadsTo(ends, base, after, bodies, limitKb, m) && ReadsTo(ends, base, after, bodies, limitKb, n)
    ensures m == n
  {
    if limitKb > 0.0 {
      var c: Option<nat> :| IsCut(ends, base, after, bodies, limitKb, c) && StopsAt(bodies, limitKb, c, m);
      var d: Option<nat> :| IsCut(ends, base, after, bodies, limitKb, d) && StopsAt(bodies, limitKb, d, n);
      CutUnique(ends, base, after, bodies, limitKb, c, d);
      FitsUnique(if c.Some? then bodies[..c.value] else bodies, limitKb, m, n);
    }
  }

  /** What a read returns. */
  ghost predicate IsReadOf(log: Log, ends: seq<int>, state: State, after: int, limitKb: real, r: Run)
    requires log.Ordered()
  {
    var wanted := Wanted(log, state, after);
    && r.WellFormed()
    && (r.batches != [] ==> r.offset == Max(after, 0) + 1)
    && CopiesOf(r.batches, wanted)
    && (forall i | r.offset <= i <= r.Last() :: r.StateAt(i) == log.StateOf(i))
    && ReadsTo(ends, log.base, Max(after, 0), Bodies(wanted), limitKb, |r.batches|)
  }

  /** With a positive limit the read is as large as the longest prefix that fits. */
  lemma ReadIsFullInSize(ends: seq<int>, base: nat, after: nat, bodies: seq<Body>, limitKb: real, n: int, k: int)
    requires ReadsTo(ends, base, after, bodies, limitKb, n) && IsLongestFit(bodies, limitKb, k) && limitKb > 0.0
    ensures 0 <= n <= k && KbTo(bodies, n) == KbTo(bodies, k)
  {
    var cut: Option<nat> :| IsCut(ends, base, after, bodies, limitKb, cut) && StopsAt(bodies, limitKb, cut, n);
    if cut.Some? {
      CutFits(bodies, limitKb, cut.value, n);
    }
    if IsLongestFit(bodies, limitKb, n) {
      FitsUnique(bodies, limitKb, n, k);
    } else {
      FullFits(bodies, limitKb, n, k);
    }
  }

  lemma FullFits(bodies: seq<Body>, limitKb: real, n: nat, k: int)
    requires n <= |bodies| && KbTo(bodies, n) == limitKb && IsLongestFit(bodies, limitKb, k)
    ensures n <= k && KbTo(bodies, k) == limitKb
  {
    FitsBefore(bodies, limitKb, k, n);
    KbToMonotone(bodies, n, k);
  }

  /** A longest fit in a part that uses up the limit is one of the whole, unless it is all of that part. */
  lemma CutFits(bodies: seq<Body>, limitKb: real, c: nat, n: int)
    requires Reaches(bodies, limitKb, c) && IsLongestFit(bodies[..c], limitKb, n) && limitKb > 0.0
    ensures 0 <= n <= c && KbTo(bodies, n) <= limitKb
    ensures n < c ==> IsLongestFit(bodies, limitKb, n)
    ensures n == c <==> KbTo(bodies, c) == limitKb
  {
    KbToPrefix(bodies[..c], bodies, n);
    KbToPrefix(bodies[..c], bodies, c);
    if n < c {
      KbToPrefix(bodies[..c], bodies, n + 1);
      KbToMonotone(bodies, n + 1, c);
    }
  }

  /** The next body is empty, and the chunk end by which the limit is reached uses it up exactly. */
  ghost predicate EmptyBehind(ends: seq<int>, base: nat, after: nat, bodies: seq<Body>, limitKb: real, c: nat) {
    && IsCut(ends, base, after, bodies, limitKb, Some(c))
    && c < |bodies| && KbTo(bodies, c) == limitKb && bodies[c] == []
  }

  /** A body that would still fit is left out, which only happens to an empty one. */
  ghost predicate LeavesOut(ends: seq<int>, base: nat, after: nat, bodies: seq<Body>, limitKb: real) {
    if limitKb > 0.0 then exists c :: EmptyBehind(ends, base, after, bodies, limitKb, c)
    else limitKb == 0.0 && bodies != [] && bodies[0] == []
  }

  /** The read is the longest prefix that fits, exactly if it leaves out no empty body. */
  lemma ReadIsLongestFit(ends: seq<int>, base: nat, after: nat, bodies: seq<Body>, limitKb: real, n: int, k: int)
    requires ReadsTo(ends, base, after, bodies, limitKb, n) && IsLongestFit(bodies, limitKb, k)
    ensures n == k <==> !LeavesOut(ends, base, after, bodies, limitKb)
  {
    if limitKb <= 0.0 {
      NothingFits(bodies, limitKb, k);
    } else {
      var cut: Option<nat> :| IsCut(ends, base, after, bodies, limitKb, cut) && StopsAt(bodies, limitKb, cut, n);
      OnlyCut(ends, base, after, bodies, limitKb, cut);
      CutIsLongestFit(bodies, limitKb, cut, n, k);
    }
  }

  lemma OnlyCut(ends: seq<int>, base: nat, after: nat, bodies: seq<Body>, limitKb: real, cut: Option<nat>)
    requires IsCut(ends, base, after, bodies, limitKb, cut) && limitKb > 0.0
    ensures LeavesOut(ends, base, after, bodies, limitKb) <==>
            cut.Some? && cut.value < |bodies| && KbTo(bodies, cut.value) == limitKb && bodies[cut.value] == []
  {
    if c: nat :| EmptyBehind(ends, base, after, bodies, limitKb, c) {
      CutUnique(ends, base, after, bodies, limitKb, cut, Some(c));
    }
    if cut.Some? && cut.value < |bodies| && KbTo(bodies, cut.value) == limitKb && bodies[cut.value] == [] {
      assert EmptyBehind(ends, base, after, bodies, limitKb, cut.value);
    }
  }

  lemma CutIsLongestFit(bodies: seq<Body>, limitKb: real, cut: Option<nat>, n: int, k: int)
    requires StopsAt(bodies, limitKb, cut, n) && IsLongestFit(bodies, limitKb, k) && limitKb > 0.0
    requires cut.Some? ==> Reaches(bodies, limitKb, cut.value)
    ensures n == k <==>
            !(cut.Some? && cut.value < |bodies| && KbTo(bodies, cut.value) == limitKb && bodies[cut.value] == [])
  {
    if cut.Some? {
      CutFits(bodies, limitKb, cut.value, n);
      if n < cut.value {
        FitsUnique(bodies, limitKb, n, k);
      } else {
        FitsBefore(bodies, limitKb, k, n);
        NextFits(bodies, limitKb, n, k);
      }
    } else {
      FitsUnique(bodies, limitKb, n, k);
    }
  }

  lemma FitsUnique(bodies: seq<Body>, limitKb: real, n: int, k: int)
    requires IsLongestFit(bodies, limitKb, n) && IsLongestFit(bodies, limitKb, k)
    ensures n == k
  {
    LongestFitIsLongest(bodies, limitKb, n, k);
  }

  lemma NothingFits(bodies: seq<Body>, limitKb: real, k: int)
    requires IsLongestFit(bodies, limitKb, k) && limitKb <= 0.0
    ensures k == 0 <==> !(limitKb == 0.0 && bodies != [] && bodies[0] == [])
  {
    if bodies != [] {
      assert KbTo(bodies, 1) == KbTo(bodies, 0) + SizeKb(bodies[0]);
      if k > 0 {
        KbToMonotone(bodies, 1, k);
      }
    }
  }

  lemma NextFits(bodies: seq<Body>, limitKb: real, n: nat, k: int)
    requires n <= k && n <= |bodies| && KbTo(bodies, n) == limitKb && IsLongestFit(bodies, limitKb, k)
    ensures n == k <==> n == |bodies| || bodies[n] != []
  {
    if n < |bodies| {
      OneMoreKb(bodies, n);
      if bodies[n] == [] {
        FitsBefore(bodies, limitKb, k, n + 1);
      } else {
        TooLargeBehind(bodies, limitKb, n, k);
      }
    }
  }

  lemma TooLargeBehind(bodies: seq<Body>, limitKb: real, n: nat, k: int)
    requires n < |bodies| && KbTo(bodies, n + 1) > limitKb && IsLongestFit(bodies, limitKb, k)
    ensures k <= n
  {
    if n < k {
      KbToMonotone(bodies, n + 1, k);
    }
  }

  lemma OneMoreKb(bodies: seq<Body>, n: nat)
    requires n < |bodies|
    ensures bodies[n] == [] ==> KbTo(bodies, n + 1) == KbTo(bodies, n)
    ensures bodies[n] != [] ==> KbTo(bodies, n + 1) > KbTo(bodies, n)
  {
  }

  // ---- Stage by stage ----

  /** The part read from disk: nothing yet, or all that is there behind the index. */
  ghost predicate ReadSoFar(disk: seq<Batch>, start: int, after: int, view: Run) {
    var a := Max(start, 0);
    if view.batches == [] then view == Run(1, [], None, None) && Max(after, 0) == a
    else a < after == |disk| && view == FinalizedRun(a + 1, disk[a..])
  }

  lemma CopiesBodies(copy: seq<Batch>, entries: seq<Batch>)
    requires CopiesOf(copy, entries)
    ensures Bodies(copy) == Bodies(entries)[..|copy|]
  {
    forall i | 0 <= i < |copy|
      ensures Bodies(copy)[i] == Bodies(entries)[i]
    {
      assert CopyAt(copy, entries, i);
    }
  }

  lemma CopiesSlice(copy: seq<Batch>, entries: seq<Batch>, i: nat, j: nat, k: nat)
    requires CopiesOf(copy, entries) && i <= j <= |copy| && j <= k <= |entries|
    ensures CopiesOf(copy[i..j], entries[i..k])
  {
    forall l | 0 <= l < j - i
      ensures CopyAt(copy[i..j], entries[i..k], l)
    {
      assert CopyAt(copy, entries, i + l);
    }
  }

  lemma CopiesJoin(a: seq<Batch>, b: seq<Batch>, entries: seq<Batch>)
    requires CopiesOf(a, entries) && CopiesOf(b, entries[|a|..])
    ensures CopiesOf(a + b, entries)
  {
    forall i | 0 <= i < |a + b|
      ensures CopyAt(a + b, entries, i)
    {
      if i < |a| {
        assert CopyAt(a, entries, i);
      } else {
        assert CopyAt(b, entries[|a|..], i - |a|);
      }
    }
  }

  /** Bodies on disk are those of the log. */
  lemma DiskPart(disk: seq<Batch>, entries: seq<Batch>, a: nat, e: nat, last: nat)
    requires CopiesOf(disk, entries) && a <= e <= |disk| && e <= last <= |entries|
    ensures CopiesOf(disk[a..e], entries[a..last])
    ensures Bodies(disk[a..e]) == Bodies(entries[a..last])[..e - a]
    ensures TotalKb(Bodies(disk[a..e])) == KbTo(Bodies(entries[a..last]), e - a)
  {
    CopiesSlice(disk, entries, a, e, last);
    CopiesBodies(disk[a..e], entries[a..last]);
    KbToPrefix(Bodies(disk[a..e]), Bodies(entries[a..last]), e - a);
  }

  lemma ReachIsCut(img: Image, ends: seq<int>, a: nat, last: nat, limitKb: real, c: nat)
    requires img.Valid() && a < |img.pruned| && |img.disk| <= last <= |img.AsLog().entries|
    requires FirstReach(img.disk, ends, a, limitKb, c)
    ensures IsCut(ends, |img.pruned|, a, Bodies(img.AsLog().entries[a..last]), limitKb, Some(c - a))
  {
    var bodies := Bodies(img.AsLog().entries[a..last]);
    DiskPart(img.disk, img.AsLog().entries, a, c, last);
    forall e | e in ends && e < c
      ensures !Reaches(bodies, limitKb, e - a)
    {
      if e > a {
        assert TooSmall(img.disk, a, limitKb, e);
        DiskPart(img.disk, img.AsLog().entries, a, e, last);
      }
    }
  }

  lemma NoReachNoCut(img: Image, ends: seq<int>, a: nat, last: nat, limitKb: real)
    requires img.Valid() && a <= |img.disk| <= last <= |img.AsLog().entries|
    requires forall e | e in ends :: e <= |img.disk|
    requires TooSmall(img.disk, a, limitKb, |img.disk|)
    ensures IsCut(ends, |img.pruned|, a, Bodies(img.AsLog().entries[a..last]), limitKb, None)
  {
    var bodies, d := Bodies(img.AsLog().entries[a..last]), |img.disk|;
    DiskPart(img.disk, img.AsLog().entries, a, d, last);
    forall e | e in ends
      ensures !Reaches(bodies, limitKb, e - a)
    {
      NotReachedBefore(bodies, limitKb, e - a, d - a);
    }
  }

  lemma NotReachedBefore(bodies: seq<Body>, limitKb: real, i: int, j: nat)
    requires i <= j <= |bodies| && KbTo(bodies, j) < limitKb
    ensures !Reaches(bodies, limitKb, i)
  {
    if i > 0 {
      KbToMonotone(bodies, i, j);
    }
  }

  /** Whatever state is asked for, filtering a finalized run by it keeps the run. */
  lemma FinalizedKept(run: Run, state: State, r: Run)
    requires run.WellFormed() && state != Initialized
    requires run.batches != [] ==> run == FinalizedRun(run.offset, run.batches)
    requires IsWindow(run, r, LowestKept(run, None, None), HighestKept(run, state, None))
    ensures r.WellFormed() && r.batches == run.batches && (r.batches != [] ==> r == run)
  {
    if run.batches != [] {
      FinalizedBounds(run.offset, run.batches, state);
      WholeWindow(run, r);
    } else {
      assert HighestKept(run, state, None) < LowestKept(run, None, None);
    }
  }

  lemma FinalizedBounds(offset: int, batches: seq<Batch>, state: State)
    requires offset >= 1 && batches != [] && state != Initialized
    ensures var run := FinalizedRun(offset, batches);
      LowestKept(run, None, None) == offset && HighestKept(run, state, None) == run.Last()
  {
  }

  lemma WholeWindow(run: Run, r: Run)
    requires run.WellFormed() && run.batches != [] && run == FinalizedRun(run.offset, run.batches)
    requires IsWindow(run, r, run.offset, run.Last())
    ensures r == run
  {
    assert run.batches[0..|run.batches|] == run.batches;
  }

  /** What was read from disk up to the first chunk end that reaches the limit, cut to the limit, is a read. */
  lemma DiskRead(img: Image, ends: seq<int>, state: State, start: int, limitKb: real, c: int, n: nat, r: Run)
    requires img.Valid() && state != Initialized && limitKb > 0.0
    requires Max(start, 0) < |img.pruned| && FirstReach(img.disk, ends, Max(start, 0), limitKb, c)
    requires IsLongestFit(Bodies(img.disk[Max(start, 0)..c]), limitKb, n)
    requires r.WellFormed() && r.batches == img.disk[Max(start, 0)..c][..n]
    requires n > 0 ==> r == FinalizedRun(Max(start, 0) + 1, r.batches)
    ensures IsReadOf(img.AsLog(), ends, state, start, limitKb, r)
  {
    var a, log := Max(start, 0), img.AsLog();
    var part, wanted, last := img.disk[a..c], Wanted(log, state, start), LastIn(log, state);
    DiskPart(img.disk, log.entries, a, c, last);
    ReachIsCut(img, ends, a, last, limitKb, c);
    CopiesSlice(part, wanted, 0, n, |wanted|);
    assert part[0..n] == part[..n] && wanted[0..|wanted|] == wanted;
    assert StopsAt(Bodies(wanted), limitKb, Some(c - a), n);
  }

  /** What was read from disk, cut to the limit and filtered, is a read. */
  lemma StorageRead(img: Image, ends: seq<int>, state: State, start: int, limitKb: real, c: int, view: Run, cut: Run,
                    r: Run)
    requires img.Valid() && state != Initialized && limitKb > 0.0
    requires Max(start, 0) < |img.pruned| && FirstReach(img.disk, ends, Max(start, 0), limitKb, c)
    requires view == FinalizedRun(Max(start, 0) + 1, img.disk[Max(start, 0)..c])
    requires |cut.batches| <= |view.batches| && cut == view.Take(|cut.batches|)
    requires IsLongestFit(Bodies(view.batches), limitKb, |cut.batches|)
    requires cut.WellFormed() && IsWindow(cut, r, LowestKept(cut, None, None), HighestKept(cut, state, None))
    ensures IsReadOf(img.AsLog(), ends, state, start, limitKb, r)
  {
    var a, n := Max(start, 0), |cut.batches|;
    assert r.WellFormed() && r.batches == view.batches[..n] && (n > 0 ==> r == FinalizedRun(a + 1, r.batches)) by {
      TakenFinalized(a + 1, view.batches, n);
      FinalizedKept(cut, state, r);
    }
    DiskRead(img, ends, state, start, limitKb, c, n, r);
  }

  lemma TakenFinalized(offset: int, batches: seq<Batch>, n: nat)
    requires offset >= 1 && n <= |batches| && batches != []
    ensures var cut := FinalizedRun(offset, batches).Take(n);
      cut.batches == batches[..n] && (n > 0 ==> cut == FinalizedRun(offset, batches[..n]))
  {
  }

  /** A run of all that is wanted behind an index. */
  ghost predicate IsWanted(log: Log, state: State, after: int, m: Run)
    requires log.Ordered()
  {
    && m.WellFormed() && m.batches == Wanted(log, state, after)
    && (m.batches != [] ==> m.offset == Max(after, 0) + 1)
    && forall i | m.offset <= i <= m.Last() :: m.StateAt(i) == log.StateOf(i)
  }

  /** What filter finds in memory behind an index is all that is wanted there. */
  lemma MemoryWanted(img: Image, state: State, after: int, m: Run)
    requires img.Valid() && state != Initialized && img.view.WellFormed()
    requires Max(after, 0) >= |img.pruned|
    requires IsWindow(img.view, m, LowestKept(img.view, None, Some(after)), HighestKept(img.view, state, None))
    ensures IsWanted(img.AsLog(), state, after, m)
  {
    MemoryBounds(img, state, after);
    MemoryWindow(img, state, after, m, Max(after, 0) + 1, LastIn(img.AsLog(), state));
  }

  lemma MemoryBounds(img: Image, state: State, after: int)
    requires img.Valid() && state != Initialized && Max(after, 0) >= |img.pruned|
    ensures LowestKept(img.view, None, Some(after)) == Max(after, 0) + 1
    ensures HighestKept(img.view, state, None) == LastIn(img.AsLog(), state)
  {
    WindowOfLog(img);
  }

  lemma MemoryWindow(img: Image, state: State, after: int, m: Run, lo: int, hi: int)
    requires img.Valid() && state != Initialized && img.view.WellFormed() && Max(after, 0) >= |img.pruned|
    requires lo == Max(after, 0) + 1 && hi == LastIn(img.AsLog(), state) <= img.view.Last() &&
             IsWindow(img.view, m, lo, hi)
    ensures IsWanted(img.AsLog(), state, after, m)
  {
    MemoryStates(img, m, lo, hi);
    if lo <= hi {
      SliceBehind(img.pruned, img.view.batches, lo - 1, hi);
    }
  }

  lemma MemoryStates(img: Image, m: Run, lo: int, hi: int)
    requires img.Valid() && img.view.WellFormed()
    requires img.view.offset <= lo && hi <= img.view.Last() && IsWindow(img.view, m, lo, hi)
    ensures m.WellFormed() && (m.batches != [] ==> lo <= hi && m.offset == lo && m.Last() == hi)
    ensures forall i | m.offset <= i <= m.Last() :: m.StateAt(i) == img.AsLog().StateOf(i)
  {
    WindowOfLog(img);
    WindowMeaning(img.view, m, lo, hi);
  }

  /** Where nothing has to be read from disk, a cut of the memory part is a read. */
  lemma MemoryRead(img: Image, ends: seq<int>, state: State, after: int, limitKb: real, m: Run, n: nat)
    requires img.Valid() && IsWanted(img.AsLog(), state, after, m) && Max(after, 0) >= |img.pruned|
    requires n <= |m.batches|
    requires if limitKb > 0.0 then IsLongestFit(Bodies(m.batches), limitKb, n) else n == 0
    ensures IsReadOf(img.AsLog(), ends, state, after, limitKb, m.Take(n))
  {
    TakeMeaning(m, n);
    TakenStates(m, n, img.AsLog());
    SelfCopies(m.batches, n);
    if limitKb > 0.0 {
      assert IsCut(ends, |img.pruned|, Max(after, 0), Bodies(m.batches), limitKb, None);
      assert StopsAt(Bodies(m.batches), limitKb, None, n);
    }
  }

  lemma SelfCopies(batches: seq<Batch>, n: nat)
    requires n <= |batches|
    ensures CopiesOf(batches[..n], batches)
  {
    forall i | 0 <= i < n
      ensures CopyAt(batches[..n], batches, i)
    {
    }
  }

  lemma TakenStates(m: Run, n: nat, log: Log)
    requires m.WellFormed() && n <= |m.batches|
    requires forall i | m.offset <= i <= m.Last() :: m.StateAt(i) == log.StateOf(i)
    ensures forall i | m.offset <= i < m.offset + n :: m.Take(n).StateAt(i) == log.StateOf(i)
  {
    if n > 0 {
      WindowMeaning(m, m.Take(n), m.offset, m.offset + n - 1);
    }
  }

  /** All that is on disk, if it does not reach the limit, extended by a cut of the memory behind it, is a read. */
  lemma JoinedRead(img: Image, ends: seq<int>, state: State, start: int, limitKb: real, m: Run, n: nat)
    requires img.Valid() && state != Initialized && (forall e | e in ends :: e <= |img.disk|)
    requires Max(start, 0) < |img.disk| && TooSmall(img.disk, Max(start, 0), limitKb, |img.disk|)
    requires IsWanted(img.AsLog(), state, |img.disk|, m) && n <= |m.batches|
    requires IsLongestFit(Bodies(m.batches), limitKb - TotalKb(Bodies(img.disk[Max(start, 0)..|img.disk|])), n)
    ensures var view := FinalizedRun(Max(start, 0) + 1, img.disk[Max(start, 0)..|img.disk|]);
      view.CanExtend(m.Take(n)) && IsReadOf(img.AsLog(), ends, state, start, limitKb, view.Extended(m.Take(n)))
  {
    var a := Max(start, 0);
    var part := img.disk[a..|img.disk|];
    JoinedStates(img.AsLog(), a, part, m, n);
    JoinedAsRead(img, ends, state, start, limitKb, m.batches, n, FinalizedRun(a + 1, part).Extended(m.Take(n)));
  }

  lemma JoinedAsRead(img: Image, ends: seq<int>, state: State, start: int, limitKb: real, rest: seq<Batch>, n: nat,
                     r: Run)
    requires img.Valid() && state != Initialized && (forall e | e in ends :: e <= |img.disk|)
    requires Max(start, 0) < |img.disk| && TooSmall(img.disk, Max(start, 0), limitKb, |img.disk|)
    requires n <= |rest| && rest == Wanted(img.AsLog(), state, |img.disk|)
    requires IsLongestFit(Bodies(rest), limitKb - TotalKb(Bodies(img.disk[Max(start, 0)..|img.disk|])), n)
    requires r.WellFormed() && r.offset == Max(start, 0) + 1
    requires r.batches == img.disk[Max(start, 0)..|img.disk|] + rest[..n]
    requires forall i | r.offset <= i <= r.Last() :: r.StateAt(i) == img.AsLog().StateOf(i)
    ensures IsReadOf(img.AsLog(), ends, state, start, limitKb, r)
  {
    var a, wanted, part := Max(start, 0), Wanted(img.AsLog(), state, start), img.disk[Max(start, 0)..|img.disk|];
    AllOfDisk(img, ends, state, start, limitKb, part, wanted);
    JoinedPieces(ends, |img.pruned|, a, part, wanted, rest, limitKb, n);
  }

  /** What all of the disk behind an index is to what is wanted there. */
  lemma AllOfDisk(img: Image, ends: seq<int>, state: State, start: int, limitKb: real, part: seq<Batch>,
                  wanted: seq<Batch>)
    requires img.Valid() && state != Initialized && (forall e | e in ends :: e <= |img.disk|)
    requires Max(start, 0) < |img.disk| && TooSmall(img.disk, Max(start, 0), limitKb, |img.disk|)
    requires part == img.disk[Max(start, 0)..|img.disk|] && wanted == Wanted(img.AsLog(), state, start)
    ensures CopiesOf(part, wanted) && wanted[|part|..] == Wanted(img.AsLog(), state, |img.disk|)
    ensures IsCut(ends, |img.pruned|, Max(start, 0), Bodies(wanted), limitKb, None) && TotalKb(Bodies(part)) < limitKb
  {
    var a, last := Max(start, 0), LastIn(img.AsLog(), state);
    WantedBehind(img.AsLog(), state, start, |img.disk|);
    DiskPart(img.disk, img.AsLog().entries, a, |img.disk|, last);
    NoReachNoCut(img, ends, a, last, limitKb);
  }

  lemma JoinedPieces(ends: seq<int>, base: nat, after: nat, part: seq<Batch>, wanted: seq<Batch>, rest: seq<Batch>,
                     limitKb: real, n: nat)
    requires CopiesOf(part, wanted) && wanted[|part|..] == rest && n <= |rest|
    requires IsCut(ends, base, after, Bodies(wanted), limitKb, None)
    requires TotalKb(Bodies(part)) < limitKb && IsLongestFit(Bodies(rest), limitKb - TotalKb(Bodies(part)), n)
    ensures CopiesOf(part + rest[..n], wanted)
    ensures ReadsTo(ends, base, after, Bodies(wanted), limitKb, |part| + n)
  {
    JoinedCopies(part, wanted, rest, n);
    JoinedStops(part, wanted, rest, limitKb, n);
    JoinedReadsTo(ends, base, after, Bodies(wanted), limitKb, |part| + n);
  }

  lemma JoinedReadsTo(ends: seq<int>, base: nat, after: nat, bodies: seq<Body>, limitKb: real, n: int)
    requires limitKb > 0.0 && IsCut(ends, base, after, bodies, limitKb, None) && IsLongestFit(bodies, limitKb, n)
    ensures ReadsTo(ends, base, after, bodies, limitKb, n)
  {
    assert StopsAt(bodies, limitKb, None, n);
  }

  lemma WantedBehind(log: Log, state: State, start: int, c: int)
    requires log.Ordered() && state != Initialized && Max(start, 0) < c <= log.LastFinalized()
    ensures Wanted(log, state, start) == log.entries[Max(start, 0)..LastIn(log, state)]
    ensures c - Max(start, 0) <= |Wanted(log, state, start)|
    ensures Wanted(log, state, start)[c - Max(start, 0)..] == Wanted(log, state, c)
  {
  }

  lemma JoinedCopies(part: seq<Batch>, wanted: seq<Batch>, rest: seq<Batch>, n: nat)
    requires CopiesOf(part, wanted) && wanted[|part|..] == rest && n <= |rest|
    ensures CopiesOf(part + rest[..n], wanted)
  {
    SelfCopies(rest, n);
    CopiesJoin(part, rest[..n], wanted);
  }

  lemma JoinedStops(part: seq<Batch>, wanted: seq<Batch>, rest: seq<Batch>, limitKb: real, n: nat)
    requires CopiesOf(part, wanted) && wanted[|part|..] == rest && n <= |rest|
    requires TotalKb(Bodies(part)) < limitKb && IsLongestFit(Bodies(rest), limitKb - TotalKb(Bodies(part)), n)
    ensures IsLongestFit(Bodies(wanted), limitKb, |part| + n)
  {
    CopiesBodies(part, wanted);
    assert Bodies(wanted) == Bodies(part) + Bodies(rest) by {
      assert wanted == wanted[..|part|] + rest;
      BodiesConcat(wanted[..|part|], rest);
    }
    FitsBehind(Bodies(part), Bodies(rest), limitKb, n);
  }

  lemma FitsBehind(p: seq<Body>, b: seq<Body>, limitKb: real, n: nat)
    requires TotalKb(p) < limitKb && IsLongestFit(b, limitKb - TotalKb(p), n)
    ensures IsLongestFit(p + b, limitKb, |p| + n)
  {
    KbToConcat(p, b, n);
    if n < |b| {
      KbToConcat(p, b, n + 1);
    }
  }

  lemma JoinedStates(log: Log, a: nat, part: seq<Batch>, m: Run, n: nat)
    requires log.Ordered() && part != [] && a + |part| <= log.LastFinalized()
    requires m.WellFormed() && n <= |m.batches| && (m.batches != [] ==> m.offset == a + |part| + 1)
    requires forall i | m.offset <= i <= m.Last() :: m.StateAt(i) == log.StateOf(i)
    ensures var view := FinalizedRun(a + 1, part);
      var r := view.Extended(m.Take(n));
      && view.CanExtend(m.Take(n))
      && r.WellFormed() && r.offset == a + 1 && r.batches == part + m.batches[..n]
      && (forall i | r.offset <= i <= r.Last() :: r.StateAt(i) == log.StateOf(i))
  {
    var view := FinalizedRun(a + 1, part);
    TakeMeaning(m, n);
    TakenStates(m, n, log);
    if n > 0 {
      ExtendStates(view, m.Take(n));
    } else {
      assert part + m.batches[..0] == part;
    }
  }
}
