// How memory and disk together stand for one unbounded log, and what each change to memory or
// disk means for that log (common/db.py).

module Images {
  import opened Batches
  import opened BatchSequences
  import opened Certificates
  import opened ReplicatedLog
  import opened Snapshots

  function IfPositive(i: int): Option<int> {
    if i > 0 then Some(i) else None
  }

  /** What was pruned, the sync points so far, the window in memory, the log on disk, and the
      first finalized index as the database remembers it. */
  datatype Image = Image(pruned: seq<Batch>, points: seq<int>, view: Run, disk: seq<Batch>, first: Option<int>) {

    ghost function AsLog(): Log {
      Log(pruned + view.batches, |pruned|, points, if view.locked.Some? then view.locked.value else 0)
    }

    /** The window starts behind what was pruned, and disk holds the finalized log from index 1 on,
        at least as far as memory has been pruned. */
    ghost predicate Valid() {
      && AsLog().Ordered()
      && view.offset == |pruned| + 1
      && view.locked == IfPositive(AsLog().locked)
      && view.finalized == IfPositive(AsLog().LastFinalized())
      && first == (if points == [] then None else Some(points[0]))
      && |pruned| <= |disk| <= AsLog().LastFinalized()
      && CopiesOf(disk, AsLog().entries)
    }
  }

  /** Chunks are written once, so only the pointer to the next sync point may be missing in them. */
  ghost predicate CopiesOf(disk: seq<Batch>, entries: seq<Batch>) {
    |disk| <= |entries| && forall i :: 0 <= i < |disk| ==> CopyAt(disk, entries, i)
  }

  ghost predicate CopyAt(disk: seq<Batch>, entries: seq<Batch>, i: nat)
    requires i < |disk| <= |entries|
  {
    disk[i].(next := None) == entries[i].(next := None)
  }

  lemma CopiesKept(disk: seq<Batch>, a: seq<Batch>, b: seq<Batch>)
    requires CopiesOf(disk, a) && |disk| <= |b|
    requires forall i | 0 <= i < |disk| :: a[i].(next := None) == b[i].(next := None)
    ensures CopiesOf(disk, b)
  {
    forall i | 0 <= i < |disk|
      ensures CopyAt(disk, b, i)
    {
      assert CopyAt(disk, a, i);
    }
  }

  /** The window is well formed and holds exactly the entries that are in memory. */
  lemma WindowOfLog(img: Image)
    requires img.Valid()
    ensures var log, view := img.AsLog(), img.view;
      && view.WellFormed()
      && view.Last() == view.LastOr(Sequenced, 0) == |log.entries|
      && view.LastOr(Locked, 0) == log.locked
      && view.LastOr(Finalized, 0) == log.LastFinalized()
      && (forall i :: view.Get(i) == if log.InMemory(i) then Some(log.At(i)) else None)
  {
    forall i | img.AsLog().InMemory(i)
      ensures img.view.Get(i) == Some(img.AsLog().At(i))
    {
    }
  }

  lemma LastHashInMemory(img: Image)
    requires img.Valid()
    ensures var last := img.view.LastOr(Sequenced, 0);
      && (last != 0 ==> img.view.Get(last).Some?)
      && LastHash(img.AsLog().entries) == if last == 0 then NoHash else img.view.Get(last).value.chainingHash
  {
    WindowOfLog(img);
  }

  // ---- Appending ----

  ghost function Appended(img: Image, batch: Batch): Image {
    img.(view := img.view.(batches := img.view.batches + [batch]))
  }

  lemma AppendedLog(img: Image, body: Body)
    requires img.Valid()
    ensures var r := Appended(img, NewBatch(body, LinkHash(LastHash(img.AsLog().entries), BodyHash(body))));
      r.Valid() && r.AsLog() == Append(img.AsLog(), [body])
  {
    var log := img.AsLog();
    var r := Appended(img, NewBatch(body, LinkHash(LastHash(log.entries), BodyHash(body))));
    assert [body][..0] == [] && Append(log, []) == log;
    assert r.AsLog().entries == log.entries + [NewBatch(body, LinkHash(LastHash(log.entries), BodyHash(body)))];
    CopiesKept(img.disk, log.entries, r.AsLog().entries);
  }

  lemma AppendSnoc(log: Log, bodies: seq<Body>, i: nat)
    requires i < |bodies|
    ensures Append(log, bodies[..i + 1]) == Append(Append(log, bodies[..i]), [bodies[i]])
  {
    assert bodies[..i + 1][..i] == bodies[..i];
    assert [bodies[i]][..0] == [];
  }

  // ---- Promotion ----

  /** The stored batch once a certificate has been recorded in it. */
  function Marked(batch: Batch, data: SignatureData, target: State): Batch {
    var b := batch.(parent := Some(data.point.parent), timestamp := Some(data.point.timestamp));
    if target == Locked then b.(lockedCert := Some(data.cert)) else b.(finalizedCert := Some(data.cert))
  }

  /** One stored batch replaced. */
  function Updated(view: Run, index: int, batch: Batch): Run {
    if view.Get(index).Some? then view.(batches := view.batches[index - view.offset := batch]) else view
  }

  /** Replacing a batch in the window replaces it in the log. */
  lemma UpdatedEntries(img: Image, index: int, batch: Batch)
    requires img.Valid() && img.AsLog().InMemory(index)
    ensures img.view.Get(index).Some?
    ensures img.(view := Updated(img.view, index, batch)).AsLog() ==
            img.AsLog().(entries := img.AsLog().entries[index - 1 := batch])
  {
    WindowOfLog(img);
    assert img.pruned + img.view.batches[index - img.view.offset := batch] ==
             (img.pruned + img.view.batches)[index - 1 := batch];
  }

  ghost function LockedImage(img: Image, data: SignatureData): Image {
    var i := data.point.index;
    if img.view.Get(i).None? then img
    else img.(view := Updated(img.view, i, Marked(img.view.Get(i).value, data, Locked)).Promoted(i, Locked))
  }

  lemma LockedLog(img: Image, data: SignatureData)
    requires img.Valid()
    requires img.AsLog().LastFinalized() == img.AsLog().locked < data.point.index <= |img.AsLog().entries|
    ensures img.view.Get(data.point.index).Some?
    ensures LockedImage(img, data).Valid()
    ensures LockedImage(img, data).AsLog() == WithLock(img.AsLog(), data)
  {
    var i, log := data.point.index, img.AsLog();
    WindowOfLog(img);
    assert img.view.Get(i) == Some(log.At(i));
    UpdatedEntries(img, i, Marked(log.At(i), data, Locked));
    CopiesKept(img.disk, log.entries, WithLock(log, data).entries);
  }

  /** The window once the previous sync point, if any, points to the new one. */
  function LinkedView(view: Run, previous: int, i: int): Run {
    if view.Get(previous).None? then view else Updated(view, previous, view.Get(previous).value.(next := Some(i)))
  }

  ghost function FinalizedImage(img: Image, data: SignatureData): Image {
    var i := data.point.index;
    var linked := LinkedView(img.view, img.view.LastOr(Finalized, 0), i);
    if linked.Get(i).None? then img
    else img.(view := Updated(linked, i, Marked(linked.Get(i).value, data, Finalized)).Promoted(i, Finalized),
              points := img.points + [i],
              first := if img.view.LastOr(Finalized, 0) == 0 then Some(i) else img.first)
  }

  lemma LinkedLog(img: Image, i: int)
    requires img.Valid()
    ensures var f := img.AsLog().LastFinalized();
      var linked := img.(view := LinkedView(img.view, f, i));
      && linked.AsLog() == img.AsLog().(entries := LinkedTo(img.AsLog().entries, f, i))
      && linked.Valid()
      && (f != 0 ==> img.view.Get(f).Some?)
  {
    var log, f := img.AsLog(), img.AsLog().LastFinalized();
    WindowOfLog(img);
    if f != 0 {
      assert log.InMemory(f) && img.view.Get(f) == Some(log.At(f));
      UpdatedEntries(img, f, log.At(f).(next := Some(i)));
      CopiesKept(img.disk, log.entries, LinkedTo(log.entries, f, i));
    } else {
      assert !log.InMemory(f);
    }
  }

  lemma FinalizedLog(img: Image, data: SignatureData)
    requires img.Valid()
    requires img.AsLog().LastFinalized() < data.point.index <= |img.AsLog().entries|
    ensures LinkedView(img.view, img.view.LastOr(Finalized, 0), data.point.index).Get(data.point.index).Some?
    ensures FinalizedImage(img, data).Valid()
    ensures FinalizedImage(img, data).AsLog() == WithFinalization(img.AsLog(), data)
  {
    var i, log := data.point.index, img.AsLog();
    WindowOfLog(img);
    LinkedLog(img, i);
    FinalizedMarkedLog(img.(view := LinkedView(img.view, log.LastFinalized(), i)), data);
    FinalizationOrdered(log, data);
  }

  lemma FinalizedMarkedLog(linked: Image, data: SignatureData)
    requires linked.Valid()
    requires linked.AsLog().LastFinalized() < data.point.index <= |linked.AsLog().entries|
    ensures linked.view.Get(data.point.index).Some?
    ensures var i, log := data.point.index, linked.AsLog();
      var marked := Marked(linked.view.Get(i).value, data, Finalized);
      var r := linked.(view := Updated(linked.view, i, marked).Promoted(i, Finalized),
                       points := linked.points + [i],
                       first := if linked.AsLog().LastFinalized() == 0 then Some(i) else linked.first);
      && r.Valid()
      && r.AsLog() == Log(log.entries[i - 1 := Marked(log.At(i), data, Finalized)], log.base, log.points + [i],
                          Max(log.locked, i))
  {
    var i, log := data.point.index, linked.AsLog();
    WindowOfLog(linked);
    assert linked.view.Get(i) == Some(log.At(i));
    UpdatedEntries(linked, i, Marked(log.At(i), data, Finalized));
    CopiesKept(linked.disk, log.entries, log.entries[i - 1 := Marked(log.At(i), data, Finalized)]);
  }

  // ---- Snapshots, pruning, reset ----

  /** What filter finds between the last persisted and the last finalized index. */
  lemma UnsavedLog(img: Image, lastPersisted: Option<int>, r: Run)
    requires img.Valid()
    requires (lastPersisted == None && img.disk == []) || lastPersisted == Some(|img.disk|)
    requires img.view.WellFormed()
    requires IsWindow(img.view, r, LowestKept(img.view, None, lastPersisted),
                      HighestKept(img.view, Sequenced, Some(img.AsLog().LastFinalized())))
    ensures r.batches == img.AsLog().entries[|img.disk|..img.AsLog().LastFinalized()]
    ensures r.batches != [] ==> r == FinalizedRun(|img.disk| + 1, r.batches)
    ensures img.(disk := img.disk + r.batches).Valid()
  {
    UnsavedBounds(img, lastPersisted);
    UnsavedWindow(img, r);
    UnsavedValid(img, r.batches);
  }

  /** What disk holds once the finalized batches that are not on it have been stored, if there are enough of them. */
  ghost function Stored(disk: seq<Batch>, log: Log, chunkSizeKb: real): seq<Batch> {
    if |disk| <= log.LastFinalized() <= |log.entries| then
      var unsaved := log.entries[|disk|..log.LastFinalized()];
      disk + if TotalKb(Bodies(unsaved)) < chunkSizeKb then [] else unsaved
    else disk
  }

  /** Disk then reaches the last finalized entry, unless what is not on disk is smaller than a chunk. */
  lemma StoredExactly(disk: seq<Batch>, log: Log, chunkSizeKb: real)
    requires |disk| <= log.LastFinalized() <= |log.entries|
    ensures var r, unsaved := Stored(disk, log, chunkSizeKb), Bodies(log.entries[|disk|..log.LastFinalized()]);
      && disk <= r
      && (forall i | |disk| <= i < |r| :: r[i] == log.entries[i])
      && |r| == if TotalKb(unsaved) < chunkSizeKb then |disk| else log.LastFinalized()
  {
  }

  lemma UnsavedBounds(img: Image, lastPersisted: Option<int>)
    requires img.Valid()
    requires (lastPersisted == None && img.disk == []) || lastPersisted == Some(|img.disk|)
    ensures LowestKept(img.view, None, lastPersisted) == |img.disk| + 1
    ensures HighestKept(img.view, Sequenced, Some(img.AsLog().LastFinalized())) ==
              img.AsLog().LastFinalized() <= img.view.Last()
    ensures img.view.offset <= |img.disk| + 1
  {
  }

  lemma UnsavedValid(img: Image, unsaved: seq<Batch>)
    requires img.Valid() && unsaved == img.AsLog().entries[|img.disk|..img.AsLog().LastFinalized()]
    ensures img.(disk := img.disk + unsaved).Valid()
  {
    StoredCopies(img.disk, img.AsLog().entries, img.AsLog().LastFinalized());
  }

  lemma UnsavedWindow(img: Image, r: Run)
    requires img.Valid()
    requires img.view.offset <= |img.disk| + 1 && img.AsLog().LastFinalized() <= img.view.Last()
    requires IsWindow(img.view, r, |img.disk| + 1, img.AsLog().LastFinalized())
    ensures r.batches == img.AsLog().entries[|img.disk|..img.AsLog().LastFinalized()]
    ensures r.batches != [] ==> r == FinalizedRun(|img.disk| + 1, r.batches)
  {
    var f, d, p := img.AsLog().LastFinalized(), |img.disk|, |img.pruned|;
    SliceBehind(img.pruned, img.view.batches, d, f);
  }

  lemma SliceBehind(a: seq<Batch>, b: seq<Batch>, i: nat, j: nat)
    requires |a| <= i <= j <= |a| + |b|
    ensures (a + b)[i..j] == b[i - |a|..j - |a|]
  {
  }

  lemma StoredCopies(disk: seq<Batch>, entries: seq<Batch>, upTo: nat)
    requires CopiesOf(disk, entries) && |disk| <= upTo <= |entries|
    ensures CopiesOf(disk + entries[|disk|..upTo], entries)
  {
    var more := disk + entries[|disk|..upTo];
    forall i | 0 <= i < |more|
      ensures CopyAt(more, entries, i)
    {
      assert i < |disk| ==> CopyAt(disk, entries, i);
    }
  }

  ghost function PrunedImage(img: Image, border: nat): Image {
    var gone :=
      if |img.pruned| < border <= |img.pruned| + |img.view.batches| then img.view.batches[..border - |img.pruned|]
          else [];
    img.(pruned := img.pruned + gone, view := img.view.After(border))
  }

  /** Dropping everything up to a border that is on disk and below the last finalized entry. */
  lemma PrunedLog(img: Image, border: nat)
    requires img.Valid()
    requires border <= |img.disk| && (border > 0 ==> border < |img.disk|)
    ensures PrunedImage(img, border).Valid()
    ensures PrunedImage(img, border).AsLog() == Prune(img.AsLog(), border)
  {
    var log, r := img.AsLog(), PrunedImage(img, border);
    WindowOfLog(img);
    if |img.pruned| < border {
      var k := border - |img.pruned|;
      assert img.view.batches[..k] + img.view.batches[k..] == img.view.batches;
      assert r.pruned + r.view.batches == img.pruned + img.view.batches;
    } else {
      assert img.pruned + [] == img.pruned;
    }
  }

  /** Keeping what is locked, and what is left out. */
  lemma ResetLog(img: Image)
    requires img.Valid()
    ensures var r := img.(view := img.view.UpTo(img.AsLog().locked));
      r.Valid() && r.AsLog() == Reset(img.AsLog())
    ensures Bodies(img.view.After(img.AsLog().locked).batches) == ResetBodies(img.AsLog())
  {
    var log := img.AsLog();
    var r := img.(view := img.view.UpTo(log.locked));
    WindowOfLog(img);
    assert r.pruned + r.view.batches == log.entries[..log.locked];
    CopiesKept(img.disk, log.entries, log.entries[..log.locked]);
    ResetRest(img);
  }

  lemma ResetRest(img: Image)
    requires img.Valid()
    ensures img.view.After(img.AsLog().locked).batches == img.AsLog().entries[img.AsLog().locked..]
  {
    var log := img.AsLog();
    assert log.base <= log.locked;
    assert img.view.batches[log.locked - log.base..] == log.entries[log.locked..];
    assert log.locked == |log.entries| ==> log.entries[log.locked..] == [];
    assert log.locked - log.base == 0 ==> img.view.batches[0..] == img.view.batches;
  }
}
