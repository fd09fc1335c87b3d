// The finalized log on disk, split into chunk files (common/snapshot_manager.py).

module Snapshots {
  import opened Batches
  import opened BatchSequences
  import opened FileNames

  datatype Chunk = Chunk(start: int, fileName: string)

  /** A non-empty run of finalized batches. */
  function FinalizedRun(offset: int, batches: seq<Batch>): Run {
    Run(offset, batches, Some(offset + |batches| - 1), Some(offset + |batches| - 1))
  }

  /** The batches of the first k runs put together. */
  function JoinedTo(runs: seq<Run>, k: nat): seq<Batch>
    requires k <= |runs|
  {
    if k == 0 then [] else JoinedTo(runs, k - 1) + runs[k - 1].batches
  }

  function Joined(runs: seq<Run>): seq<Batch> {
    JoinedTo(runs, |runs|)
  }

  /** A chunk file holds the run that starts where its name says. */
  ghost predicate ChunkAt(chunks: seq<Chunk>, files: map<string, Run>, runs: seq<Run>, i: nat)
    requires i < |chunks| == |runs|
  {
    var c := chunks[i];
    c.fileName in files && files[c.fileName] == runs[i] && c.start == runs[i].offset >= 1 &&
        c.fileName == FileName(c.start)
  }

  /** Every chunk of an index is in its file. */
  ghost predicate Indexed(chunks: seq<Chunk>, files: map<string, Run>, runs: seq<Run>) {
    |runs| == |chunks| && forall i :: 0 <= i < |chunks| ==> ChunkAt(chunks, files, runs, i)
  }

  /** The runs follow each other without a gap, starting at index 1. */
  ghost predicate Consecutive(runs: seq<Run>) {
    forall i :: 0 <= i < |runs| ==> InPlace(runs, i)
  }

  ghost predicate InPlace(runs: seq<Run>, i: nat)
    requires i < |runs|
  {
    runs[i].batches != [] && runs[i] == FinalizedRun(|JoinedTo(runs, i)| + 1, runs[i].batches)
  }

  lemma {:induction false} JoinedMonotone(runs: seq<Run>, i: nat, j: nat)
    requires i <= j <= |runs|
    ensures JoinedTo(runs, i) <= JoinedTo(runs, j)
    ensures Consecutive(runs) && i < j ==> |JoinedTo(runs, i)| < |JoinedTo(runs, j)|
  {
    if i < j {
      JoinedMonotone(runs, i, j - 1);
      assert Consecutive(runs) ==> InPlace(runs, j - 1);
    }
  }

  lemma {:induction false} JoinedSame(runs: seq<Run>, run: Run, k: nat)
    requires k <= |runs|
    ensures JoinedTo(runs + [run], k) == JoinedTo(runs, k)
  {
    if k > 0 {
      JoinedSame(runs, run, k - 1);
    }
  }

  lemma {:induction false} OffsetsIncrease(runs: seq<Run>, i: nat, j: nat)
    requires Consecutive(runs) && i < j < |runs|
    ensures 1 <= runs[i].offset < runs[j].offset
    ensures runs[i].offset <= runs[i].Last() < runs[j].offset
  {
    assert InPlace(runs, i) && InPlace(runs, j);
    JoinedMonotone(runs, i + 1, j);
  }

  lemma OffsetsBound(runs: seq<Run>, i: nat)
    requires Consecutive(runs) && i < |runs|
    ensures runs[i].offset == |JoinedTo(runs, i)| + 1
    ensures runs[i].Last() == |JoinedTo(runs, i + 1)| <= |Joined(runs)|
    ensures i == 0 ==> runs[i].offset == 1
    ensures runs[i].batches != []
  {
    assert InPlace(runs, i);
    JoinedMonotone(runs, i + 1, |runs|);
  }

  /** A run starts at or below the last index, and there only if it is the last one and holds one batch. */
  lemma OffsetsBelowLast(runs: seq<Run>, i: nat)
    requires Consecutive(runs) && i < |runs|
    ensures 1 <= runs[i].offset <= |Joined(runs)|
    ensures runs[i].offset == |Joined(runs)| <==> i == |runs| - 1 && |runs[i].batches| == 1
  {
    var last := |runs| - 1;
    OffsetsBound(runs, i);
    OffsetsBound(runs, last);
    if i < last {
      OffsetsIncrease(runs, i, last);
    } else {
      LastRun(runs);
    }
  }

  lemma LastRun(runs: seq<Run>)
    requires Consecutive(runs) && runs != []
    ensures runs[|runs| - 1].Last() == runs[|runs| - 1].offset + |runs[|runs| - 1].batches| - 1
  {
  }

  /** Cutting a finalized run after an index leaves a finalized run or nothing. */
  lemma FinalizedAfter(offset: int, batches: seq<Batch>, after: int)
    requires offset >= 1 && batches != []
    ensures var run := FinalizedRun(offset, batches);
      var r := run.After(after);
      && r.WellFormed()
      && (after < offset ==> r == run)
      && (offset <= after < run.Last() ==> r == FinalizedRun(after + 1, batches[after + 1 - offset..]))
      && (after >= run.Last() ==> r.batches == [])
  {
  }

  lemma FinalizedWellFormed(runs: seq<Run>, i: nat)
    requires Consecutive(runs) && i < |runs|
    ensures runs[i].WellFormed()
  {
    assert InPlace(runs, i);
  }

  lemma FinalizedExtended(offset: int, a: seq<Batch>, b: seq<Batch>)
    requires offset >= 1 && a != [] && b != []
    ensures FinalizedRun(offset, a).CanExtend(FinalizedRun(offset + |a|, b))
    ensures FinalizedRun(offset, a).Extended(FinalizedRun(offset + |a|, b)) == FinalizedRun(offset, a + b)
  {
  }

  /** The batches behind an index in the first k runs. */
  ghost function LoadedFrom(runs: seq<Run>, after: int, k: nat): seq<Batch>
    requires k <= |runs|
  {
    var read := JoinedTo(runs, k);
    if 0 <= after < |read| then read[after..] else []
  }

  /** What the first k runs hold behind an index does not reach a limit. */
  ghost predicate Short(runs: seq<Run>, after: int, limitKb: Option<real>, k: nat)
    requires k <= |runs|
  {
    limitKb.Some? ==> TotalKb(Bodies(LoadedFrom(runs, after, k))) < limitKb.value
  }

  lemma ShortIsSmall(runs: seq<Run>, disk: seq<Batch>, after: nat, limitKb: real, k: nat)
    requires k <= |runs| && JoinedTo(runs, k) <= disk && after < |JoinedTo(runs, k)|
    requires Short(runs, after, Some(limitKb), k)
    ensures TooSmall(disk, after, limitKb, |JoinedTo(runs, k)|)
  {
    var read := JoinedTo(runs, k);
    assert read == disk[..|read|];
    assert read[after..] == disk[after..|read|];
  }

  /** The indices at which runs end. */
  ghost function EndsOf(runs: seq<Run>): (ends: seq<int>)
    ensures |ends| == |runs|
    ensures forall i | 0 <= i < |runs| :: ends[i] == |JoinedTo(runs, i + 1)|
  {
    seq(|runs|, i requires 0 <= i < |runs| => |JoinedTo(runs, i + 1)|)
  }

  /** The ends once everything up to an index is on disk. */
  ghost function Grown(ends: seq<int>, before: int, now: int): seq<int> {
    if now > before then ends + [now] else ends
  }

  /** The first of the ends by which the batches behind an index reach a limit. */
  ghost predicate FirstReach(disk: seq<Batch>, ends: seq<int>, after: nat, limitKb: real, c: int) {
    && after < c <= |disk| && c in ends
    && TotalKb(Bodies(disk[after..c])) >= limitKb
    && forall e :: e in ends && after < e < c ==> TooSmall(disk, after, limitKb, e)
  }

  ghost predicate TooSmall(disk: seq<Batch>, after: nat, limitKb: real, e: int) {
    after <= e <= |disk| && TotalKb(Bodies(disk[after..e])) < limitKb
  }

  lemma TooSmallBefore(disk: seq<Batch>, after: nat, limitKb: real, e: int, later: int)
    requires after <= e <= later && TooSmall(disk, after, limitKb, later)
    ensures TooSmall(disk, after, limitKb, e)
  {
    var all, part := Bodies(disk[after..later]), Bodies(disk[after..e]);
    KbToPrefix(part, all, e - after);
    KbToMonotone(all, e - after, later - after);
  }

  /** What reading the first k runs from an index on amounts to. */
  ghost predicate LoadedUpTo(runs: seq<Run>, view: Run, after: int, k: nat)
    requires k <= |runs|
  {
    var read := JoinedTo(runs, k);
    if 0 <= after < |read| then view == FinalizedRun(after + 1, read[after..])
    else view == Run(1, [], None, None)
  }

  lemma MergeRun(runs: seq<Run>, view: Run, after: int, i: nat)
    requires Consecutive(runs) && i < |runs| && LoadedUpTo(runs, view, after, i)
    requires 0 <= after
    ensures view.CanExtend(runs[i].After(after))
    ensures LoadedUpTo(runs, view.Extended(runs[i].After(after)), after, i + 1)
  {
    assert InPlace(runs, i);
    FinalizedAfter(runs[i].offset, runs[i].batches, after);
    MergeBatches(JoinedTo(runs, i), runs[i].batches, view, after, runs[i].After(after));
  }

  ghost predicate ViewOf(view: Run, read: seq<Batch>, after: nat) {
    if after < |read| then view == FinalizedRun(after + 1, read[after..]) else view == Run(1, [], None, None)
  }

  lemma MergeBatches(read: seq<Batch>, more: seq<Batch>, view: Run, after: nat, cut: Run)
    requires ViewOf(view, read, after) && more != []
    requires after <= |read| ==> cut == FinalizedRun(|read| + 1, more)
    requires |read| < after < |read| + |more| ==> cut == FinalizedRun(after + 1, more[after - |read|..])
    requires after >= |read| + |more| ==> cut.batches == []
    ensures view.CanExtend(cut)
    ensures ViewOf(view.Extended(cut), read + more, after)
  {
    if after < |read| {
      FinalizedExtended(after + 1, read[after..], more);
      assert (read + more)[after..] == read[after..] + more;
    } else if after < |read| + |more| {
      assert (read + more)[after..] == more[after - |read|..];
      assert after == |read| ==> more[0..] == more;
    }
  }

  /** An end before that of run k - 1 is at most that of the run before. */
  lemma EarlierEnd(runs: seq<Run>, k: nat, i: nat)
    requires 0 < k <= |runs| && i < |runs|
    requires |JoinedTo(runs, i + 1)| < |JoinedTo(runs, k)|
    ensures |JoinedTo(runs, i + 1)| <= |JoinedTo(runs, k - 1)|
  {
    if i + 1 >= k {
      JoinedMonotone(runs, k, i + 1);
    } else {
      JoinedMonotone(runs, i + 1, k - 1);
    }
  }

  class SnapshotManager {
    var chunks: seq<Chunk>
    var files: map<string, Run>
    var lastPersisted: Option<int>
    /** What the files of the index hold. */
    ghost var runs: seq<Run>

    ghost predicate Valid()
      reads this
    {
      && Consecutive(runs)
      && Indexed(chunks, files, runs)
      && lastPersisted == (if chunks == [] then None else Some(|Joined(runs)|))
    }

    /** The finalized log as far as it is on disk. */
    ghost function Persisted(): seq<Batch>
      reads this
    {
      Joined(runs)
    }

    constructor ()
      ensures Valid() && Persisted() == [] && Ends() == [] && chunks == [] && lastPersisted == None
    {
      chunks, files, lastPersisted, runs := [], map[], None, [];
    }

    method LoadFile(name: string) returns (r: BatchSequence)
      ensures fresh(r) && r.Valid()
      ensures r.View() == if name in files then files[name] else Run(1, [], None, None)
    {
      r := new BatchSequence(if name in files then files[name] else Run(1, [], None, None));
    }

    /** Binary search for the last chunk starting at or before an index; -1 if there is none. */
    method FindFilePos(index: int) returns (pos: int)
      requires Valid()
      ensures -1 <= pos < |chunks|
      ensures forall i | 0 <= i < |chunks| :: chunks[i].start <= index <==> i <= pos
    {
      StartsIncrease();
      var lo, hi := 0, |chunks|;
      while lo < hi
        invariant 0 <= lo <= hi <= |chunks|
        invariant forall i | 0 <= i < lo :: chunks[i].start <= index
        invariant forall i | hi <= i < |chunks| :: index < chunks[i].start
      {
        var mid := (lo + hi) / 2;
        if index < chunks[mid].start {
          hi := mid;
        } else {
          lo := mid + 1;
        }
      }
      pos := lo - 1;
    }

    lemma StartsIncrease()
      requires Valid()
      ensures forall i, j | 0 <= i < j < |chunks| :: chunks[i].start < chunks[j].start
    {
      forall i, j | 0 <= i < j < |chunks|
        ensures chunks[i].start < chunks[j].start
      {
        assert ChunkAt(chunks, files, runs, i) && ChunkAt(chunks, files, runs, j);
        OffsetsIncrease(runs, i, j);
      }
    }

    lemma NothingToLoad(after: int)
      requires Valid()
      requires forall i | 0 <= i < |chunks| :: chunks[i].start > (if after == 0 then 1 else after)
      ensures after < 0 || runs == []
    {
      if runs != [] {
        assert ChunkAt(chunks, files, runs, 0);
        OffsetsBound(runs, 0);
      }
    }

    lemma FirstChunk(after: int, pos: nat)
      requires Valid() && pos < |chunks| && chunks[pos].start <= (if after == 0 then 1 else after)
      ensures after >= 0
      ensures LoadedUpTo(runs, Run(1, [], None, None), after, pos)
    {
      assert ChunkAt(chunks, files, runs, pos);
      OffsetsBound(runs, pos);
    }

    /** When load_batches stops: out of chunks, or enough read, but not without the last chunk. */
    ghost predicate StopsWell(view: Run, sizeKb: real, after: int, limitKb: Option<real>, k: nat)
      reads this
      requires Valid()
    {
      && k <= |runs|
      && LoadedUpTo(runs, view, after, k)
      && (k == |runs| || after < 0 || (limitKb.Some? && sizeKb >= limitKb.value))
      && (k > 0 && chunks[k - 1].start > Max(after, 1) ==> Short(runs, after, limitKb, k - 1))
    }

    /** The persisted log after an index, chunk by chunk, until the size limit is reached. */
    method LoadBatches(after: int, limitKb: Option<real>) returns (merged: BatchSequence)
      requires Valid()
      ensures fresh(merged) && merged.Valid()
      ensures exists k: nat :: StopsWell(merged.View(), merged.sizeKb, after, limitKb, k)
      // Something is read whenever there is something behind the index and the limit allows anything.
      ensures 0 <= after < |Persisted()| && (limitKb.None? || limitKb.value > 0.0) ==> merged.View().batches != []
    {
      var pos := FindFilePos(if after == 0 then 1 else after);
      merged := new BatchSequence(Run(1, [], None, None));
      if pos < 0 {
        NothingToLoad(after);
        assert StopsWell(merged.View(), merged.sizeKb, after, limitKb, if after < 0 then 0 else |runs|);
        return;
      }
      FirstChunk(after, pos);
      ghost var last := MergeFrom(merged, after, limitKb, pos, runs);
      assert StopsWell(merged.View(), merged.sizeKb, after, limitKb, last + 1);
      SomethingRead(merged.View(), merged.sizeKb, after, limitKb, last + 1);
    }

    /** Merge chunks from a position on until the limit is reached; last is the position of the last one taken. */
    method MergeFrom(merged: BatchSequence, after: int, limitKb: Option<real>, pos: nat, ghost all: seq<Run>)
      returns (ghost last: nat)
      requires Valid() && all == runs && merged.Valid() && pos < |chunks| && after >= 0
      requires LoadedUpTo(all, merged.View(), after, pos)
      modifies merged
      ensures merged.Valid()
      ensures pos <= last < |all| && LoadedUpTo(all, merged.View(), after, last + 1)
      ensures last + 1 == |all| || (limitKb.Some? && merged.sizeKb >= limitKb.value)
      ensures last > pos ==> Short(all, after, limitKb, last)
    {
      last := pos;
      var i, enough := pos, false;
      while i < |chunks| && !enough
        invariant pos <= i <= |chunks| && (if i == pos then last == pos && !enough else last + 1 == i)
        invariant merged.Valid()
        invariant LoadedUpTo(all, merged.View(), after, i)
        invariant enough ==> limitKb.Some? && merged.sizeKb >= limitKb.value
        invariant i > pos && !enough ==> Short(all, after, limitKb, i)
        invariant last > pos ==> Short(all, after, limitKb, last)
      {
        enough := MergeChunk(merged, after, limitKb, i, all);
        last := i;
        i := i + 1;
      }
    }

    lemma LoadedKb(view: Run, after: int, k: nat)
      requires k <= |runs| && LoadedUpTo(runs, view, after, k)
      ensures Bodies(view.batches) == Bodies(LoadedFrom(runs, after, k))
    {
    }

    /** A chunk, cut behind an index. */
    method LoadChunk(i: nat, after: int) returns (chunk: BatchSequence)
      requires Valid() && i < |chunks| && after >= 0
      ensures fresh(chunk) && chunk.Valid() && chunk.View() == runs[i].After(after)
    {
      assert ChunkAt(chunks, files, runs, i);
      FinalizedWellFormed(runs, i);
      var file := LoadFile(chunks[i].fileName);
      chunk := file.KeepAfter(after);
    }

    /** One pass of the loop; true if the limit has been reached. */
    method MergeChunk(merged: BatchSequence, after: int, limitKb: Option<real>, i: nat, ghost all: seq<Run>)
      returns (enough: bool)
      requires Valid() && all == runs && merged.Valid() && i < |chunks| && after >= 0
      requires LoadedUpTo(all, merged.View(), after, i)
      modifies merged
      ensures merged.Valid() && LoadedUpTo(all, merged.View(), after, i + 1)
      ensures enough <==> limitKb.Some? && merged.sizeKb >= limitKb.value
      ensures enough <==> !Short(all, after, limitKb, i + 1)
    {
      var chunk := LoadChunk(i, after);
      MergeRun(runs, merged.View(), after, i);
      var ok := merged.Extend(chunk);
      LoadedKb(merged.View(), after, i + 1);
      enough := limitKb.Some? && merged.sizeKb >= limitKb.value;
    }

    lemma SomethingRead(view: Run, sizeKb: real, after: int, limitKb: Option<real>, k: nat)
      requires Valid() && StopsWell(view, sizeKb, after, limitKb, k) && sizeKb == TotalKb(Bodies(view.batches))
      ensures 0 <= after < |Persisted()| && (limitKb.None? || limitKb.value > 0.0) ==> view.batches != []
    {
    }

    ghost function Ends(): seq<int>
      reads this
    {
      EndsOf(runs)
    }

    lemma EndsBound()
      requires Valid()
      ensures forall e | e in Ends() :: 1 <= e <= |Persisted()|
    {
      forall i | 0 <= i < |runs|
        ensures 1 <= Ends()[i] <= |Persisted()|
      {
        OffsetsBound(runs, i);
      }
    }

    /** A load from within the persisted log ends at the first chunk end at which it is large enough, or the last. */
    lemma LoadEnds(view: Run, sizeKb: real, after: nat, limitKb: real, k: nat)
      requires Valid() && StopsWell(view, sizeKb, after, Some(limitKb), k) && sizeKb == TotalKb(Bodies(view.batches))
      requires after < |Persisted()| && limitKb > 0.0
      ensures after < view.Last() <= |Persisted()|
      ensures view == FinalizedRun(after + 1, Persisted()[after..view.Last()])
      ensures sizeKb >= limitKb ==> FirstReach(Persisted(), Ends(), after, limitKb, view.Last())
      ensures sizeKb < limitKb ==> view.Last() == |Persisted()|
    {
      SomethingRead(view, sizeKb, after, Some(limitKb), k);
      JoinedMonotone(runs, k, |runs|);
      var c := |JoinedTo(runs, k)|;
      assert JoinedTo(runs, k) == Persisted()[..c];
      assert Persisted()[..c][after..] == Persisted()[after..c];
      assert k > 0 && Ends()[k - 1] == c;
      if sizeKb >= limitKb {
        forall e | e in Ends() && after < e < c
          ensures TooSmall(Persisted(), after, limitKb, e)
        {
          var i :| 0 <= i < |runs| && Ends()[i] == e;
          EarlierIsSmaller(after, limitKb, k, i);
        }
      }
    }

    lemma EarlierIsSmaller(after: nat, limitKb: real, k: nat, i: nat)
      requires Valid() && 0 < k <= |runs| && i < |runs|
      requires after < |JoinedTo(runs, i + 1)| < |JoinedTo(runs, k)|
      requires chunks[k - 1].start > Max(after, 1) ==> Short(runs, after, Some(limitKb), k - 1)
      ensures TooSmall(Persisted(), after, limitKb, |JoinedTo(runs, i + 1)|)
    {
      var e, before := |JoinedTo(runs, i + 1)|, |JoinedTo(runs, k - 1)|;
      EarlierEnd(runs, k, i);
      StartBehind(k);
      ShortIsSmall(runs, Persisted(), after, limitKb, k - 1);
      TooSmallBefore(Persisted(), after, limitKb, e, before);
    }

    /** A chunk starts behind the end of the one before. */
    lemma StartBehind(k: nat)
      requires Valid() && 0 < k <= |runs|
      ensures chunks[k - 1].start == |JoinedTo(runs, k - 1)| + 1
      ensures JoinedTo(runs, k - 1) <= Persisted()
    {
      assert ChunkAt(chunks, files, runs, k - 1) && InPlace(runs, k - 1);
      JoinedMonotone(runs, k - 1, |runs|);
    }

    lemma LastPersistedIndex()
      requires Valid()
      ensures (lastPersisted == None && Persisted() == []) || lastPersisted == Some(|Persisted()|)
    {
    }

    /** The start of the oldest chunk that is kept in memory. */
    ghost function Border(count: nat): nat
      reads this
      requires Valid() && count >= 1
    {
      if |chunks| < count then 0 else
        assert ChunkAt(chunks, files, runs, |chunks| - count);
        chunks[|chunks| - count].start
    }

    /** In terms of where the chunks end. */
    lemma BorderOfEnds(count: nat)
      requires Valid() && count >= 1
      ensures Border(count) ==
                if |Ends()| < count then 0 else if |Ends()| == count then 1 else Ends()[|Ends()| - count - 1] + 1
    {
      if |chunks| >= count {
        assert ChunkAt(chunks, files, runs, |chunks| - count);
        OffsetsBound(runs, |chunks| - count);
      }
    }

    /** The index up to which all but the latest chunks reach, 0 when there are too few chunks. */
    method GetLatestChunksStartIndex(count: nat) returns (start: int)
      requires Valid() && count >= 1
      ensures start == Border(count)
      // Used as an exclusive border it only reaches batches that are on disk, and with two or more
      // chunks kept it stays below the last of them.
      ensures 0 <= start <= |Persisted()|
      ensures count >= 2 && start > 0 ==> start < |Persisted()|
    {
      start := 0;
      if |chunks| >= count {
        start := chunks[|chunks| - count].start;
        BorderBelowLast(count);
      }
    }

    lemma BorderBelowLast(count: nat)
      requires Valid() && 1 <= count <= |chunks|
      ensures var start := chunks[|chunks| - count].start;
        && 1 <= start <= |Persisted()|
        // With one chunk kept the border reaches the last persisted batch when that chunk holds nothing else.
        && (start == |Persisted()| <==> count == 1 && |runs[|runs| - 1].batches| == 1)
    {
      assert ChunkAt(chunks, files, runs, |chunks| - count);
      OffsetsBelowLast(runs, |chunks| - count);
    }

    /** Write a run as the newest chunk. */
    method StoreBatchSequence(batches: BatchSequence)
      requires Valid() && batches.Valid()
      requires batches.View().batches != [] ==> batches.indexOffset >= 1
      modifies this
      ensures batches.View().batches == [] ==>
                chunks == old(chunks) && files == old(files) && lastPersisted == old(lastPersisted)
      ensures batches.View().batches != [] ==>
                && chunks == old(chunks) + [Chunk(batches.indexOffset, FileName(batches.indexOffset))]
                && files == old(files)[FileName(batches.indexOffset) := batches.View()]
                && lastPersisted == Some(batches.View().Last())
      // The finalized batches that come next on disk are added, and no chunk is overwritten.
      ensures batches.View().batches != [] &&
              batches.View() == FinalizedRun(|old(Persisted())| + 1, batches.batches) ==>
                && Valid() && Persisted() == old(Persisted()) + batches.batches
                && Ends() == old(Ends()) + [|Persisted()|]
      ensures batches.View().batches == [] ==> Valid() && Persisted() == old(Persisted()) && Ends() == old(Ends())
    {
      if |batches.batches| == 0 {
        return;
      }
      var start := batches.View().FirstOr(Sequenced, 0);
      FirstOfNonEmpty(batches.View());
      chunks := chunks + [Chunk(start, FileName(start))];
      files := files[FileName(start) := batches.View()];
      lastPersisted := Some(batches.View().LastOr(Sequenced, 0));
      runs := runs + [batches.View()];
      if batches.View() == FinalizedRun(|old(Persisted())| + 1, batches.batches) {
        StoredValid(old(runs), batches.View());
        EndsGrow(old(runs), batches.View());
        StoredChunks(old(chunks), old(files), old(runs), batches.View());
      }
    }

    /** Rebuild the index from the files in the directory, as a starting node does.  False stands for the
        ValueError at a chunk file whose name is not a number. */
    method IndexFiles(directory: seq<string>) returns (ok: bool)
      requires forall i, j | 0 <= i < j < |directory| :: directory[i] != directory[j]
      modifies this`chunks
      ensures ok <==> forall s | s in directory && IsChunkFile(s) :: IsNumbered(s)
      ensures !ok ==> chunks == old(chunks)
      ensures ok ==> SortedNames(Names(chunks)) && forall s :: s in Names(chunks) <==> s in directory && IsChunkFile(s)
      ensures ok ==> forall i | 0 <= i < |chunks| ::
                IsNumbered(chunks[i].fileName) && chunks[i].start == StartOf(chunks[i].fileName)
      // This restores the chunks in their order exactly if their names sort like their start indices.
      ensures old(Valid()) && SameFiles(directory, old(chunks)) ==>
                ok && (chunks == old(chunks) <==> StartsSortByName(old(chunks)))
    {
      NamesNumbered();
      var listing := SortNames(ChunkFiles(directory));
      var indexed: seq<Chunk> := [];
      var i := 0;
      while i < |listing|
        invariant 0 <= i <= |listing| && |indexed| == i
        invariant forall j | 0 <= j < i ::
                    IsNumbered(listing[j]) && indexed[j] == Chunk(StartOf(listing[j]), listing[j])
      {
        if !IsNumbered(listing[i]) {
          return false;
        }
        indexed := indexed + [Chunk(StartOf(listing[i]), listing[i])];
        i := i + 1;
      }
      Restored(directory, listing, indexed);
      chunks := indexed;
      ok := true;
    }

    lemma NamesNumbered()
      ensures Valid() ==> forall s | s in Names(chunks) :: IsNumbered(s)
    {
      if Valid() {
        forall i | 0 <= i < |chunks|
          ensures IsNumbered(Names(chunks)[i])
        {
          assert ChunkAt(chunks, files, runs, i);
          NameRoundTrip(chunks[i].start);
        }
      }
    }

    lemma Restored(directory: seq<string>, listing: seq<string>, indexed: seq<Chunk>)
      requires SortedNames(listing) && |indexed| == |listing|
      requires forall s :: s in listing <==> s in directory && IsChunkFile(s)
      requires forall j | 0 <= j < |listing| ::
                 IsNumbered(listing[j]) && indexed[j] == Chunk(StartOf(listing[j]), listing[j])
      ensures Names(indexed) == listing
      ensures Valid() && SameFiles(directory, chunks) ==> (indexed == chunks <==> StartsSortByName(chunks))
    {
      assert Names(indexed) == listing;
      if Valid() && SameFiles(directory, chunks) {
        NamesSorted();
        if StartsSortByName(chunks) {
          SortedUnique(listing, Names(chunks));
          forall j | 0 <= j < |chunks|
            ensures indexed[j] == chunks[j]
          {
            assert ChunkAt(chunks, files, runs, j);
            NameRoundTrip(chunks[j].start);
          }
        }
      }
    }

    /** The names of an index are sorted exactly if its start indices allow it. */
    lemma NamesSorted()
      requires Valid()
      ensures SortedNames(Names(chunks)) <==> StartsSortByName(chunks)
    {
      forall i, j | 0 <= i < j < |chunks|
        ensures Less(Names(chunks)[i], Names(chunks)[j]) <==> SortsBefore(chunks[i].start, chunks[j].start)
      {
        NamesInOrder(i, j);
      }
    }

    lemma NamesInOrder(i: nat, j: nat)
      requires Valid() && i < j < |chunks|
      ensures Less(Names(chunks)[i], Names(chunks)[j]) <==> SortsBefore(chunks[i].start, chunks[j].start)
    {
      StartsIncrease();
      assert ChunkAt(chunks, files, runs, i) && ChunkAt(chunks, files, runs, j);
      NameOrderExactly(chunks[i].start, chunks[j].start);
    }

    /** Which they do as long as indices have at most twelve digits. */
    lemma ShortIndicesSort()
      requires Valid() && |Persisted()| < Pow10(PAD_WIDTH)
      ensures StartsSortByName(chunks)
    {
      StartsIncrease();
      forall i, j | 0 <= i < j < |chunks|
        ensures SortsBefore(chunks[i].start, chunks[j].start)
      {
        assert ChunkAt(chunks, files, runs, j) && ChunkAt(chunks, files, runs, i);
        OffsetsBound(runs, j);
        ShortSortsBefore(chunks[i].start, chunks[j].start);
      }
    }
  }

  /** The later start, cut to as many digits as the earlier one is written with, is not below it. */
  ghost predicate SortsBefore(s: int, t: int) {
    0 <= s < t && Width(s) <= Width(t) && (PowPositive(Width(t) - Width(s)); s <= t / Pow10(Width(t) - Width(s)))
  }

  lemma ShortSortsBefore(s: int, t: int)
    requires 0 <= s < t < Pow10(PAD_WIDTH)
    ensures SortsBefore(s, t)
  {
    NameOrder(s, t);
    NameOrderExactly(s, t);
  }

  ghost predicate StartsSortByName(chunks: seq<Chunk>) {
    forall i, j :: 0 <= i < j < |chunks| ==> SortsBefore(chunks[i].start, chunks[j].start)
  }

  /** The chunk files of a directory are those of an index. */
  ghost predicate SameFiles(directory: seq<string>, chunks: seq<Chunk>) {
    forall s :: s in directory && IsChunkFile(s) <==> s in Names(chunks)
  }

  function ChunkFiles(directory: seq<string>): (r: seq<string>)
    requires forall i, j | 0 <= i < j < |directory| :: directory[i] != directory[j]
    ensures forall s :: s in r <==> s in directory && IsChunkFile(s)
    ensures forall i, j | 0 <= i < j < |r| :: r[i] != r[j]
  {
    if directory == [] then []
    else
      var n := |directory| - 1;
      var rest := ChunkFiles(directory[..n]);
      if IsChunkFile(directory[n]) then rest + [directory[n]] else rest
  }

  function Names(chunks: seq<Chunk>): seq<string> {
    seq(|chunks|, i requires 0 <= i < |chunks| => chunks[i].fileName)
  }

  lemma FirstOfNonEmpty(run: Run)
    requires run.batches != [] && run.offset >= 1
    ensures run.FirstOr(Sequenced, 0) == run.offset && run.LastOr(Sequenced, 0) == run.Last()
  {
  }

  lemma NoOverwrite(runs: seq<Run>, i: nat, earlier: nat, start: nat)
    requires Consecutive(runs) && i < |runs| && earlier == runs[i].offset && start == |Joined(runs)| + 1
    ensures FileName(earlier) != FileName(start)
  {
    OffsetsBound(runs, i);
    if FileName(earlier) == FileName(start) {
      NameInjective(earlier, start);
    }
  }

  /** No chunk is overwritten. */
  lemma StoredChunks(chunks: seq<Chunk>, files: map<string, Run>, runs: seq<Run>, run: Run)
    requires Consecutive(runs) && Indexed(chunks, files, runs) && run.offset == |Joined(runs)| + 1
    ensures var name := FileName(run.offset);
      Indexed(chunks + [Chunk(run.offset, name)], files[name := run], runs + [run])
  {
    var name := FileName(run.offset);
    var newChunks, newFiles, newRuns := chunks + [Chunk(run.offset, name)], files[name := run], runs + [run];
    forall i | 0 <= i < |newChunks|
      ensures ChunkAt(newChunks, newFiles, newRuns, i)
    {
      if i < |chunks| {
        assert ChunkAt(chunks, files, runs, i);
        NoOverwrite(runs, i, chunks[i].start, run.offset);
      }
    }
  }

  lemma EndsGrow(runs: seq<Run>, run: Run)
    ensures EndsOf(runs + [run]) == EndsOf(runs) + [|Joined(runs + [run])|]
  {
    forall i | 0 <= i < |runs|
      ensures EndsOf(runs + [run])[i] == EndsOf(runs)[i]
    {
      JoinedSame(runs, run, i + 1);
    }
  }

  lemma StoredValid(runs: seq<Run>, run: Run)
    requires Consecutive(runs) && run.batches != [] && run == FinalizedRun(|Joined(runs)| + 1, run.batches)
    ensures Consecutive(runs + [run])
    ensures Joined(runs + [run]) == Joined(runs) + run.batches
  {
    var all := runs + [run];
    JoinedSame(runs, run, |runs|);
    forall i | 0 <= i < |all|
      ensures InPlace(all, i)
    {
      if i < |runs| {
        assert InPlace(runs, i);
        JoinedSame(runs, run, i);
      }
    }
  }
}
