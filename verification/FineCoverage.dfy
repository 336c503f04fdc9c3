/**
 Serving charts from fine buckets while they are being kept up. A run interleaves backfill
 chunks, the two commits of each prune, inserted and deleted rows and the passage of time in
 any order. Exact buckets are promised from the edge the backfill has reached, and only within
 the retention; the API, which sees neither, goes by the oldest stored block bucket.
 */
module FineCoverage {
  import opened Common
  import opened Aggregation
  import opened ChartRollups
  import opened FineRollups

  // ---------- the coverage signal ----------

  /** The API's coverage signal: the oldest stored block bucket. */
  ghost predicate IsCoverageStart(st: Store, c: int) {
    c in st.feeRollups && forall k :: k in st.feeRollups ==> c <= k
  }

  /** What the signal is taken to mean: from the oldest stored block bucket on, everything is exact. */
  ghost predicate Contiguous(st: Store) {
    forall c, k :: IsCoverageStart(st, c) && c <= k ==> ExactAt(st, k)
  }

  /** `low` separates buckets without stored rows from exact ones. */
  ghost predicate KeptFrom(st: Store, low: int) {
    forall k :: if k < low then NothingStoredAt(st, k) else ExactAt(st, k)
  }

  // ---------- runs ----------

  /** The tables, the edge the backfill has reached from above, and the clock. */
  datatype System = System(store: Store, low: int, now: int)

  datatype Step =
    | Chunk(start: int, end: int, committed: bool)
    | PruneBlobs(cutoff: int)                 // first commit of a prune
    | PruneFees(cutoff: int)                  // second commit; it may never come
    | InsertBlob(blob: BlobRow, at: int)      // `at`: when the row's transaction began, its NOW()
    | InsertBlock(block: MetricsRow, at: int)
    | DeleteBlob(i: nat, at: int)             // a reorg
    | DeleteBlock(i: nat, at: int)
    | Wait(until: int)

  /** Chunks are aligned and leave no gap below the edge, cutoffs are a retention old by the time they are
      used, and the clock does not run backwards. Rows come and go as they like. */
  ghost predicate Possible(s: System, step: Step) {
    match step
    case Chunk(start, end, committed) => Aligned(start, BUCKET) && Aligned(end, BUCKET) && start <= end && s.low <= end
    case PruneBlobs(cutoff) => cutoff <= s.now - FINE_RETENTION_SECONDS
    case PruneFees(cutoff) => cutoff <= s.now - FINE_RETENTION_SECONDS
    case InsertBlob(b, at) => at <= s.now
    case InsertBlock(m, at) => at <= s.now
    case DeleteBlob(i, at) => at <= s.now && i < |s.store.blobs|
    case DeleteBlock(i, at) => at <= s.now && i < |s.store.metrics|
    case Wait(until) => s.now <= until
  }

  ghost function Next(s: System, step: Step): System
    requires Possible(s, step)
  {
    match step
    case Chunk(start, end, committed) =>
      if committed then System(Rewritten(s.store, start, end), if start < s.low then start else s.low, s.now) else s
    case PruneBlobs(cutoff) => s.(store := BlobsPruned(s.store, cutoff))
    case PruneFees(cutoff) => s.(store := FeesPruned(s.store, cutoff))
    case InsertBlob(b, at) => s.(store := BlobInserted(s.store, b, at))
    case InsertBlock(m, at) => s.(store := BlockInserted(s.store, m, at))
    case DeleteBlob(i, at) => s.(store := BlobDeleted(s.store, i, at))
    case DeleteBlock(i, at) => s.(store := BlockDeleted(s.store, i, at))
    case Wait(until) => s.(now := until)
  }

  /** The state after the steps; one that is not possible does not happen. */
  ghost function After(s: System, steps: seq<Step>): System {
    if steps == [] then s
    else
      var s' := After(s, steps[..|steps| - 1]);
      if Possible(s', steps[|steps| - 1]) then Next(s', steps[|steps| - 1]) else s'
  }

  /** Within the retention: nothing stored without raw rows, and everything exact from the edge on. */
  ghost predicate Invariant(s: System) {
    forall k :: k >= s.now - FINE_RETENTION_SECONDS ==>
      NoPhantomsAt(s.store, k) && (k >= s.low ==> ExactAt(s.store, k))
  }

  lemma StepKeepsAt(s: System, step: Step, k: int)
    requires Possible(s, step) && k >= Next(s, step).now - FINE_RETENTION_SECONDS
    requires NoPhantomsAt(s.store, k) && (k >= s.low ==> ExactAt(s.store, k))
    ensures NoPhantomsAt(Next(s, step).store, k) && (k >= Next(s, step).low ==> ExactAt(Next(s, step).store, k))
  {
    var s' := Next(s, step);
    match step
    case Chunk(start, end, committed) =>
      if committed {
        RewrittenAt(s.store, start, end, k);
        if !InRange(k, start, end) {
          SameIsAsExact(s.store, s'.store, k);
        }
      }
    case PruneBlobs(cutoff) =>
      PrunedAt(s.store, cutoff, k);
      SameIsAsExact(s.store, s'.store, k);
    case PruneFees(cutoff) =>
      PrunedAt(s.store, cutoff, k);
      SameIsAsExact(s.store, s'.store, k);
    case InsertBlob(b, at) => BlobInsertedAt(s.store, b, at, k);
    case InsertBlock(m, at) => BlockInsertedAt(s.store, m, at, k);
    case DeleteBlob(i, at) => BlobDeletedAt(s.store, i, at, k);
    case DeleteBlock(i, at) => BlockDeletedAt(s.store, i, at, k);
    case Wait(until) =>
  }

  lemma StepKeeps(s: System, step: Step)
    requires Invariant(s) && Possible(s, step)
    ensures Invariant(Next(s, step))
  {
    var s' := Next(s, step);
    forall k | k >= s'.now - FINE_RETENTION_SECONDS
      ensures NoPhantomsAt(s'.store, k) && (k >= s'.low ==> ExactAt(s'.store, k))
    {
      StepKeepsAt(s, step, k);
    }
  }

  /** MAIN RESULT. Whatever interleaving of chunks, half prunes, rows inserted and deleted anywhere and time
      passing, every bucket at or after the edge and within the retention is exact. */
  lemma {:induction false} RunStaysExact(s: System, steps: seq<Step>)
    requires Invariant(s)
    ensures Invariant(After(s, steps))
    ensures forall k :: After(s, steps).low <= k && After(s, steps).now - FINE_RETENTION_SECONDS <= k ==>
      ExactAt(After(s, steps).store, k)
    ensures After(s, steps).low <= s.low && After(s, steps).now >= s.now
  {
    if steps != [] {
      var s' := After(s, steps[..|steps| - 1]);
      RunStaysExact(s, steps[..|steps| - 1]);
      if Possible(s', steps[|steps| - 1]) {
        StepKeeps(s', steps[|steps| - 1]);
      }
    }
  }

  /** Before anything has been backfilled the edge is past every row: the promise is empty below it, and what
      triggers have stored by then has raw rows behind it. */
  lemma KeptIsInvariant(st: Store, low: int, now: int)
    requires KeptFrom(st, low)
    ensures Invariant(System(st, low, now)) && CoverageAbove(System(st, low, now)) && Contiguous(st)
  {
    forall k ensures NoPhantomsAt(st, k) && (k >= low ==> ExactAt(st, k)) {
      assert if k < low then NothingStoredAt(st, k) else ExactAt(st, k);
    }
    forall k | k in st.feeRollups ensures k >= low {
      assert k < low ==> NothingStoredAt(st, k);
    }
  }

  // ---------- the signal over runs ----------

  /** No block bucket is stored below the edge. */
  ghost predicate CoverageAbove(s: System) {
    forall k :: k in s.store.feeRollups ==> s.low <= k
  }

  /** No trigger recomputes a block bucket below the edge: inserting a block there would store it, and so
      would deleting one of several. */
  ghost predicate Orderly(s: System, step: Step) {
    match step
    case InsertBlock(m, at) => Maintained(m.time, at) ==> s.low <= Floor(m.time, BUCKET)
    case DeleteBlock(i, at) =>
      i < |s.store.metrics| && Maintained(s.store.metrics[i].time, at) ==>
        s.low <= Floor(s.store.metrics[i].time, BUCKET)
    case _ => true
  }

  ghost predicate OrderlyRun(s: System, steps: seq<Step>) {
    steps == [] ||
    (OrderlyRun(s, steps[..|steps| - 1]) && Orderly(After(s, steps[..|steps| - 1]), steps[|steps| - 1]))
  }

  /** Once the edge is a retention behind a row's transaction, as it is from the minute after a completed
      backfill began, no trigger reaches below it. */
  lemma OrderlyAfterBackfill(s: System, step: Step)
    requires Aligned(s.low, BUCKET) && (RowStep(step) ==> s.low <= step.at - FINE_RETENTION_SECONDS)
    ensures Orderly(s, step)
  {
    match step
    case InsertBlock(m, at) => AlignedBound(s.low, m.time, BUCKET);
    case DeleteBlock(i, at) =>
      if i < |s.store.metrics| {
        AlignedBound(s.low, s.store.metrics[i].time, BUCKET);
      }
    case _ =>
  }

  lemma {:induction false} RunIsOrderly(s: System, steps: seq<Step>)
    requires Aligned(s.low, BUCKET)
    requires forall i :: 0 <= i < |steps| && RowStep(steps[i]) ==> s.low <= steps[i].at - FINE_RETENTION_SECONDS
    ensures OrderlyRun(s, steps) && Aligned(After(s, steps).low, BUCKET) && After(s, steps).low <= s.low
  {
    if steps != [] {
      var last := |steps| - 1;
      RunIsOrderly(s, steps[..last]);
      OrderlyAfterBackfill(After(s, steps[..last]), steps[last]);
    }
  }

  lemma StepKeepsCoverage(s: System, step: Step)
    requires CoverageAbove(s) && Possible(s, step) && Orderly(s, step)
    ensures CoverageAbove(Next(s, step))
  {
    var s' := Next(s, step);
    if step.Chunk? && step.committed {
      forall k | k in s'.store.feeRollups ensures s'.low <= k {
        ChunkRewritesItsBuckets(s.store, step.start, step.end, k, "");
      }
    }
  }

  lemma {:induction false} RunKeepsCoverage(s: System, steps: seq<Step>)
    requires CoverageAbove(s) && OrderlyRun(s, steps)
    ensures CoverageAbove(After(s, steps))
  {
    if steps != [] {
      var s' := After(s, steps[..|steps| - 1]);
      RunKeepsCoverage(s, steps[..|steps| - 1]);
      if Possible(s', steps[|steps| - 1]) {
        StepKeepsCoverage(s', steps[|steps| - 1]);
      }
    }
  }

  /** A chunk that reaches below every stored block bucket mends the signal, whatever has landed below the edge. */
  lemma ChunkMendsCoverage(s: System, start: int, end: int)
    requires Possible(s, Chunk(start, end, true)) && forall k :: k in s.store.feeRollups ==> start <= k
    ensures CoverageAbove(Next(s, Chunk(start, end, true)))
  {
    var s' := Next(s, Chunk(start, end, true));
    forall k | k in s'.store.feeRollups ensures s'.low <= k {
      ChunkRewritesItsBuckets(s.store, start, end, k, "");
    }
  }

  /** Wherever the driver is aborted, on an empty table or over what an earlier run kept, its chunks are
      possible steps and the edge has reached the last of them. */
  lemma {:induction false} BackfillIsPossible(s: System, start: int, end: int, n: nat)
    requires Aligned(start, BUCKET) && Aligned(end, BUCKET) && s.low <= end && n <= |BackfillChunks(start, end)|
    ensures var chunks := BackfillChunks(start, end)[..n]; var s' := After(s, ChunkSteps(chunks));
      && s'.store == AllRewritten(s.store, chunks) && s'.now == s.now
      && s'.low == (if n > 0 && chunks[n - 1].0 < s.low then chunks[n - 1].0 else s.low)
      && (n < |BackfillChunks(start, end)| ==> s'.low <= BackfillChunks(start, end)[n].1)
  {
    var all := BackfillChunks(start, end);
    BackfillShape(start, end);
    if n > 0 {
      BackfillIsPossible(s, start, end, n - 1);
      var chunks := all[..n];
      assert chunks[..n - 1] == all[..n - 1];
      assert ChunkSteps(chunks)[..n - 1] == ChunkSteps(all[..n - 1]);
      assert ChunkSteps(chunks)[n - 1] == Chunk(all[n - 1].0, all[n - 1].1, true);
      if n > 1 {
        assert all[n - 2 + 1].1 == all[n - 2].0;
      }
      if n < |all| {
        assert all[n - 1 + 1].1 == all[n - 1].0;
      }
    }
  }

  function ChunkSteps(chunks: seq<(int, int)>): (r: seq<Step>)
    ensures |r| == |chunks|
  {
    seq(|chunks|, i requires 0 <= i < |chunks| => Chunk(chunks[i].0, chunks[i].1, true))
  }

  // ---------- exactly when the signal is unsound ----------

  /** Between the two commits of a prune the signal stays sound if and only if no blob bucket was stored
      between the oldest block bucket and the cutoff. */
  lemma HalfPruneIff(st: Store, cutoff: int)
    requires Contiguous(st)
    ensures Contiguous(BlobsPruned(st, cutoff)) <==>
      forall c, k, from :: IsCoverageStart(st, c) && c <= k < PruneCutoff(cutoff) ==> (k, from) !in st.blobRollups
  {
    var st' := BlobsPruned(st, cutoff);
    forall k, from ensures HasBlobs(st', k, from) <==> HasBlobs(st, k, from) {
    }
    forall c ensures IsCoverageStart(st', c) <==> IsCoverageStart(st, c) {
    }
    if Contiguous(st') {
      forall c, k, from | IsCoverageStart(st, c) && c <= k < PruneCutoff(cutoff) ensures (k, from) !in st.blobRollups {
        assert ExactAt(st, k) && ExactAt(st', k);
        assert (k, from) in st.blobRollups <==> HasBlobs(st, k, from);
      }
    }
    if forall c, k, from :: IsCoverageStart(st, c) && c <= k < PruneCutoff(cutoff) ==> (k, from) !in st.blobRollups {
      forall c, k | IsCoverageStart(st', c) && c <= k ensures ExactAt(st', k) {
        assert ExactAt(st, k) && (HasBlocks(st', k) <==> HasBlocks(st, k));
      }
    }
  }

  /** The second commit makes it sound again. */
  lemma PruneKeeps(st: Store, cutoff: int)
    requires Contiguous(st)
    ensures Contiguous(FeesPruned(BlobsPruned(st, cutoff), cutoff))
  {
    var half := BlobsPruned(st, cutoff);
    var st' := FeesPruned(half, cutoff);
    forall c, k | IsCoverageStart(st', c) && c <= k ensures ExactAt(st', k) {
      PrunedAt(st, cutoff, k);
      PrunedAt(half, cutoff, k);
      SameIsAsExact(st, half, k);
      SameIsAsExact(half, st', k);
      var oldest := OldestBucket(st.feeRollups, c);
      assert IsCoverageStart(st, oldest);
    }
  }

  /** A table with a bucket at `last` has an oldest one, at or before it. */
  lemma {:induction false} OldestBucket(table: FeeTable, last: int) returns (c: int)
    requires last in table
    ensures c in table && c <= last && forall k :: k in table ==> c <= k
    decreases |Below(table, last)|
  {
    if exists k :: k in table && k < last {
      var k :| k in table && k < last;
      assert Below(table, k) < Below(table, last) by {
        assert k in Below(table, last) && k !in Below(table, k);
      }
      SmallerSet(Below(table, k), Below(table, last));
      c := OldestBucket(table, k);
    } else {
      c := last;
    }
  }

  ghost function Below(table: FeeTable, last: int): set<int> {
    set k | k in table && k < last
  }

  lemma SmallerSet(a: set<int>, b: set<int>)
    requires a < b
    ensures |a| < |b|
  {
    SubsetSize(a, b);
    assert b == a + (b - a);
  }

  /** A bucket is removed exactly when all of it is older than the cutoff. */
  lemma PruneRemovesExpiredOnly(st: Store, cutoff: int, k: int)
    requires Aligned(k, BUCKET)
    ensures k in st.feeRollups ==> (k !in FeesPruned(st, cutoff).feeRollups <==> k + BUCKET <= cutoff)
    ensures forall from :: (k, from) in st.blobRollups ==>
      ((k, from) !in BlobsPruned(st, cutoff).blobRollups <==> k + BUCKET <= cutoff)
  {
    TruncateIsFloor(cutoff, BUCKET);
    ShiftAligned(k, 1, BUCKET);
    AlignedBound(k + BUCKET, cutoff, BUCKET);
    FloorFacts(cutoff, BUCKET);
  }

  ghost predicate NoRowsAt(st: Store, k: int) {
    !HasBlocks(st, k) && forall from :: !HasBlobs(st, k, from)
  }

  /** Once a block bucket is stored at `start`, below the kept buckets, and nothing else changes there or
      above, the signal is sound if and only if that bucket holds no blobs and no raw row lies between it and
      them. */
  lemma StoredBelowIff(st: Store, st': Store, low: int, start: int)
    requires KeptFrom(st, low) && start < low
    requires forall k :: k in st'.feeRollups <==> k == start || k in st.feeRollups
    requires forall k :: start <= k ==> (ExactAt(st', k) <==> BlockBelowExactAt(st, low, start, k))
    ensures Contiguous(st') <==>
      (forall from :: !HasBlobs(st, start, from)) && forall k :: start < k < low ==> NoRowsAt(st, k)
  {
    forall k | k in st'.feeRollups ensures start <= k {
      assert if k < low then NothingStoredAt(st, k) else ExactAt(st, k);
    }
    assert IsCoverageStart(st', start);
    assert forall c :: IsCoverageStart(st', c) ==> c == start;
    assert Contiguous(st') <==> forall k :: start <= k ==> ExactAt(st', k);
    if forall k :: start <= k ==> ExactAt(st', k) {
      assert BlockBelowExactAt(st, low, start, start);
      forall k | start < k < low ensures NoRowsAt(st, k) {
        assert BlockBelowExactAt(st, low, start, k);
      }
    }
  }

  /** A block inserted below the kept buckets leaves the signal sound if and only if its own bucket holds no
      blobs and no raw row lies between it and them. */
  lemma BlockBelowIff(st: Store, low: int, m: MetricsRow, now: int)
    requires KeptFrom(st, low) && Floor(m.time, BUCKET) < low && Maintained(m.time, now)
    ensures var start := Floor(m.time, BUCKET);
      Contiguous(BlockInserted(st, m, now)) <==>
        (forall from :: !HasBlobs(st, start, from)) && forall k :: start < k < low ==> NoRowsAt(st, k)
  {
    var st' := BlockInserted(st, m, now);
    var start := Floor(m.time, BUCKET);
    assert m in st'.metrics && HasBlocks(st', start);
    forall k | start <= k ensures ExactAt(st', k) <==> BlockBelowExactAt(st, low, start, k) {
      BlockBelowAt(st, low, m, now, k);
    }
    StoredBelowIff(st, st', low, start);
  }

  /** What the raw rows must look like for bucket `k` to be exact after the block. */
  ghost predicate BlockBelowExactAt(st: Store, low: int, start: int, k: int) {
    if k == start then forall from :: !HasBlobs(st, start, from)
    else k < low ==> NoRowsAt(st, k)
  }

  lemma BlockBelowAt(st: Store, low: int, m: MetricsRow, now: int, k: int)
    requires KeptFrom(st, low) && Floor(m.time, BUCKET) < low && Maintained(m.time, now) && Floor(m.time, BUCKET) <= k
    ensures ExactAt(BlockInserted(st, m, now), k) <==> BlockBelowExactAt(st, low, Floor(m.time, BUCKET), k)
  {
    var st' := BlockInserted(st, m, now);
    assert if k < low then NothingStoredAt(st, k) else ExactAt(st, k);
    if k == Floor(m.time, BUCKET) {
      forall from ensures HasBlobs(st', k, from) <==> HasBlobs(st, k, from) {
      }
      assert m in st'.metrics && HasBlocks(st', k);
    } else {
      BlockInsertedElsewhere(st, m, now, k);
      SameIsAsExact(st, st', k);
    }
  }

  /** A block deleted below the kept buckets stores its bucket when another block remains there, and then the
      same condition decides; deleting the last one is harmless. */
  lemma BlockDeletedBelowIff(st: Store, low: int, i: nat, now: int)
    requires i < |st.metrics| && KeptFrom(st, low)
    requires Floor(st.metrics[i].time, BUCKET) < low && Maintained(st.metrics[i].time, now)
    ensures var start, st' := Floor(st.metrics[i].time, BUCKET), BlockDeleted(st, i, now);
      Contiguous(st') <==>
        (HasBlocks(st', start) ==>
          (forall from :: !HasBlobs(st, start, from)) && forall k :: start < k < low ==> NoRowsAt(st, k))
  {
    var st' := BlockDeleted(st, i, now);
    var start := Floor(st.metrics[i].time, BUCKET);
    var removed := st.(metrics := Without(st.metrics, i));
    assert HasBlocks(st', start) <==> HasBlocks(removed, start);
    forall k | start <= k
      ensures (k == start && !HasBlocks(st', start)) || (ExactAt(st', k) <==> BlockBelowExactAt(st, low, start, k))
    {
      BlockDeletedBelowAt(st, low, i, now, k);
    }
    assert NothingStoredAt(st, start);
    if HasBlocks(st', start) {
      StoredBelowIff(st, st', low, start);
    } else {
      forall c, k | IsCoverageStart(st', c) && c <= k ensures ExactAt(st', k) {
        assert c < low ==> NothingStoredAt(st, c);
        assert BlockBelowExactAt(st, low, start, k);
      }
    }
  }

  lemma BlockDeletedBelowAt(st: Store, low: int, i: nat, now: int, k: int)
    requires i < |st.metrics| && KeptFrom(st, low)
    requires Floor(st.metrics[i].time, BUCKET) < low && Maintained(st.metrics[i].time, now)
    requires Floor(st.metrics[i].time, BUCKET) <= k
    ensures var start, st' := Floor(st.metrics[i].time, BUCKET), BlockDeleted(st, i, now);
      (k == start && !HasBlocks(st', start)) || (ExactAt(st', k) <==> BlockBelowExactAt(st, low, start, k))
  {
    var st' := BlockDeleted(st, i, now);
    assert if k < low then NothingStoredAt(st, k) else ExactAt(st, k);
    if k == Floor(st.metrics[i].time, BUCKET) {
      forall from ensures HasBlobs(st', k, from) <==> HasBlobs(st, k, from) {
      }
      FeesRefreshedAt(st.(metrics := Without(st.metrics, i)), k, k);
    } else {
      BlockDeletedElsewhere(st, i, now, k);
      SameIsAsExact(st, st', k);
    }
  }

  /** A blob inserted or deleted below the kept buckets never misleads: its table is not the signal. */
  lemma BlobBelowIsHarmless(s: System, step: Step)
    requires KeptFrom(s.store, s.low) && Possible(s, step) && (step.InsertBlob? || step.DeleteBlob?)
    requires Floor(RowTime(s, step), BUCKET) < s.low
    ensures Contiguous(Next(s, step).store)
  {
    var st, st' := s.store, Next(s, step).store;
    forall c, k | IsCoverageStart(st', c) && c <= k ensures ExactAt(st', k) {
      assert c < s.low ==> NothingStoredAt(st, c);
      assert ExactAt(st, k);
      RowElsewhere(s, step, k);
      SameIsAsExact(st, st', k);
    }
  }

  // ---------- one row inserted or deleted ----------

  predicate RowStep(step: Step) {
    step.InsertBlob? || step.InsertBlock? || step.DeleteBlob? || step.DeleteBlock?
  }

  /** The time of the row that comes or goes. */
  function RowTime(s: System, step: Step): int
    requires RowStep(step) && Possible(s, step)
  {
    match step
    case InsertBlob(b, at) => b.time
    case InsertBlock(m, at) => m.time
    case DeleteBlob(i, at) => s.store.blobs[i].time
    case DeleteBlock(i, at) => s.store.metrics[i].time
  }

  lemma RowElsewhere(s: System, step: Step, k: int)
    requires RowStep(step) && Possible(s, step) && Floor(RowTime(s, step), BUCKET) != k
    ensures SameAt(s.store, Next(s, step).store, k)
  {
    match step
    case InsertBlob(b, at) => BlobInsertedElsewhere(s.store, b, at, k);
    case InsertBlock(m, at) => BlockInsertedElsewhere(s.store, m, at, k);
    case DeleteBlob(i, at) => BlobDeletedElsewhere(s.store, i, at, k);
    case DeleteBlock(i, at) => BlockDeletedElsewhere(s.store, i, at, k);
  }

  /** A maintained row that comes or goes at or above the edge keeps everything as it was. */
  lemma MaintainedRowKeeps(s: System, step: Step)
    requires KeptFrom(s.store, s.low) && RowStep(step) && Possible(s, step)
    requires s.low <= Floor(RowTime(s, step), BUCKET) && Maintained(RowTime(s, step), step.at)
    ensures KeptFrom(Next(s, step).store, s.low)
  {
    var st, st' := s.store, Next(s, step).store;
    forall k ensures if k < s.low then NothingStoredAt(st', k) else ExactAt(st', k) {
      assert if k < s.low then NothingStoredAt(st, k) else ExactAt(st, k);
      if k < s.low {
        RowElsewhere(s, step, k);
        SameIsAsExact(st, st', k);
      } else {
        match step
        case InsertBlob(b, at) => BlobInsertedAt(st, b, at, k);
        case InsertBlock(m, at) => BlockInsertedAt(st, m, at, k);
        case DeleteBlob(i, at) => BlobDeletedAt(st, i, at, k);
        case DeleteBlock(i, at) => BlockDeletedAt(st, i, at, k);
      }
    }
  }

  /** A row too old for its trigger, coming or going, leaves its bucket other than a chunk would write it. */
  lemma LateRowSpoils(s: System, step: Step)
    requires RowStep(step) && Possible(s, step) && !Maintained(RowTime(s, step), step.at)
    requires ExactAt(s.store, Floor(RowTime(s, step), BUCKET))
    ensures !ExactAt(Next(s, step).store, Floor(RowTime(s, step), BUCKET))
  {
    var st, st', k := s.store, Next(s, step).store, Floor(RowTime(s, step), BUCKET);
    match step
    case InsertBlob(b, at) =>
      assert b in st'.blobs && HasBlobs(st', k, b.from);
      BlobSumsAppend(st.blobs, b, BlobsBehind(BUCKET, k, b.from));
    case InsertBlock(m, at) =>
      assert m in st'.metrics && HasBlocks(st', k);
      FeeSumsAppend(st.metrics, m, BlocksBehind(BUCKET, k));
      assert FeeBucket(st'.metrics, BUCKET, k).rows == FeeBucket(st.metrics, BUCKET, k).rows + multiset{m};
      assert |FeeBucket(st'.metrics, BUCKET, k).rows| == |FeeBucket(st.metrics, BUCKET, k).rows| + 1;
    case DeleteBlob(i, at) =>
      var b := st.blobs[i];
      assert b in st.blobs && HasBlobs(st, k, b.from);
      SumWithout(st.blobs, i, BlobsBehind(BUCKET, k, b.from), ONE);
    case DeleteBlock(i, at) =>
      var m := st.metrics[i];
      assert m in st.metrics && HasBlocks(st, k);
      PickedWithout(st.metrics, i, BlocksBehind(BUCKET, k));
      assert FeeBucket(st.metrics, BUCKET, k).rows == FeeBucket(st'.metrics, BUCKET, k).rows + multiset{m};
      assert |FeeBucket(st.metrics, BUCKET, k).rows| == |FeeBucket(st'.metrics, BUCKET, k).rows| + 1;
  }

  /** A row too old for its trigger, whether blob or block, inserted or deleted, leaves the signal sound if and
      only if its bucket lies below it. */
  lemma LateRowIff(s: System, step: Step)
    requires KeptFrom(s.store, s.low) && RowStep(step) && Possible(s, step)
    requires !Maintained(RowTime(s, step), step.at)
    ensures Contiguous(Next(s, step).store) <==>
      forall c :: IsCoverageStart(s.store, c) ==> Floor(RowTime(s, step), BUCKET) < c
  {
    var st, st', start := s.store, Next(s, step).store, Floor(RowTime(s, step), BUCKET);
    forall c ensures IsCoverageStart(st', c) <==> IsCoverageStart(st, c) {
    }
    forall c | IsCoverageStart(st, c) ensures c >= s.low {
      assert c < s.low ==> NothingStoredAt(st, c);
    }
    if s.low <= start {
      LateRowSpoils(s, step);
    }
    if forall c :: IsCoverageStart(st, c) ==> start < c {
      forall c, k | IsCoverageStart(st', c) && c <= k ensures ExactAt(st', k) {
        assert ExactAt(st, k);
        RowElsewhere(s, step, k);
        SameIsAsExact(st, st', k);
      }
    }
  }

  // ---------- why the backfill runs newest first ----------

  /** Had a chunk with blocks been written below the kept buckets instead of reaching down from them, the
      signal would be sound if and only if no raw row lay in the gap. */
  lemma SkippingChunkIff(st: Store, low: int, start: int, end: int, seen: MetricsRow)
    requires KeptFrom(st, low) && Aligned(start, BUCKET) && Aligned(end, BUCKET) && start <= end < low
    requires seen in st.metrics && InRange(seen.time, start, end)
    ensures Contiguous(Rewritten(st, start, end)) <==> forall k :: end <= k < low ==> NoRowsAt(st, k)
  {
    var st' := Rewritten(st, start, end);
    forall k
      ensures InRange(k, start, end) || k >= low ==> ExactAt(st', k)
      ensures end <= k < low ==> (ExactAt(st', k) <==> NoRowsAt(st, k))
    {
      SkippedAt(st, low, start, end, k);
    }
    var c := CoverageAfterSkip(st, low, start, end, seen);
    if Contiguous(st') {
      forall k | end <= k < low ensures NoRowsAt(st, k) {
        assert ExactAt(st', k);
      }
    }
    if forall k :: end <= k < low ==> NoRowsAt(st, k) {
      forall c', k | IsCoverageStart(st', c') && c' <= k ensures ExactAt(st', k) {
        assert c' == c;
      }
    }
  }

  lemma SkippedAt(st: Store, low: int, start: int, end: int, k: int)
    requires KeptFrom(st, low) && Aligned(start, BUCKET) && Aligned(end, BUCKET) && start <= end < low
    ensures var st' := Rewritten(st, start, end);
      && (InRange(k, start, end) || k >= low ==> ExactAt(st', k))
      && (k < start || end <= k < low ==> NothingStoredAt(st', k))
      && (end <= k < low ==> (ExactAt(st', k) <==> NoRowsAt(st, k)))
  {
    var st' := Rewritten(st, start, end);
    assert if k < low then NothingStoredAt(st, k) else ExactAt(st, k);
    RewrittenAt(st, start, end, k);
    if !InRange(k, start, end) {
      SameIsAsExact(st, st', k);
    }
  }

  lemma CoverageAfterSkip(st: Store, low: int, start: int, end: int, seen: MetricsRow) returns (c: int)
    requires KeptFrom(st, low) && Aligned(start, BUCKET) && Aligned(end, BUCKET) && start <= end < low
    requires seen in st.metrics && InRange(seen.time, start, end)
    ensures IsCoverageStart(Rewritten(st, start, end), c) && start <= c < end
  {
    var st' := Rewritten(st, start, end);
    ChunkHoldsWholeBuckets(seen.time, start, end);
    var s := Floor(seen.time, BUCKET);
    ChunkRewritesItsBuckets(st, start, end, s, "");
    forall k | k in st'.feeRollups ensures start <= k {
      SkippedAt(st, low, start, end, k);
    }
    c := OldestBucket(st'.feeRollups, s);
  }

  // ---------- the inputs on which it is ----------

  const BLOB := BlobRow(0, "a", 1, 1, 1, 1)
  const BLOCK := MetricsRow(1, 0, 1, [])
  const BLOCK2 := MetricsRow(2, 12, 1, [])

  const EMPTY_STORE := Store([], [], map[], map[])
  const BLOB_STORED := Store([BLOB], [], map[(0, "a") := BlobAggregate(1, 1, 1, 1, 1)], map[])

  /** One blob and one block at second 0, stored exactly. */
  const STORED := Store([BLOB], [BLOCK], map[(0, "a") := BlobAggregate(1, 1, 1, 1, 1)],
    map[0 := FeeAggregate(1, 1, multiset{BLOCK})])

  /** The same rows before the trigger of the block has run, nothing backfilled yet. */
  const UNSTORED := Store([BLOB], [], map[], map[])

  /** A blob and two blocks of one minute, nothing backfilled yet. */
  const UNSTORED_PAIR := Store([BLOB], [BLOCK, BLOCK2], map[], map[])

  lemma BlobStored()
    ensures BlobInserted(EMPTY_STORE, BLOB, 0) == BLOB_STORED
  {
    assert [] + [BLOB] == [BLOB];
  }

  lemma BlockStored()
    ensures BlockInserted(BLOB_STORED, BLOCK, 0) == STORED
  {
    assert [] + [BLOCK] == STORED.metrics && BLOCK in STORED.metrics;
    FeeSumsAppend([], BLOCK, BlocksBehind(BUCKET, 0));
    assert FeeBucket(STORED.metrics, BUCKET, 0) == FeeAggregate(1, 1, multiset{BLOCK});
  }

  /** The stored rows are what the triggers make of the two raw ones. */
  lemma StoredIsKept()
    ensures KeptFrom(STORED, 0) && IsCoverageStart(STORED, 0)
  {
    BlobStored();
    BlockStored();
    MaintainedRowKeeps(System(EMPTY_STORE, 0, 0), InsertBlob(BLOB, 0));
    MaintainedRowKeeps(System(BLOB_STORED, 0, 0), InsertBlock(BLOCK, 0));
  }

  /** A prune that stops after its first commit leaves a block bucket whose blobs are gone. */
  lemma HalfPruneMisleads()
    ensures KeptFrom(STORED, 0) && Contiguous(STORED) && !Contiguous(BlobsPruned(STORED, 60))
  {
    StoredIsKept();
    KeptIsInvariant(STORED, 0, 0);
    HalfPruneIff(STORED, 60);
    assert PruneCutoff(60) == 60;
    assert (0, "a") in STORED.blobRollups;
  }

  /** The first block after the migration, in a minute that already has a blob. */
  lemma FirstBlockMisleads()
    ensures KeptFrom(UNSTORED, 60) && !Contiguous(BlockInserted(UNSTORED, BLOCK, 0))
  {
    forall k ensures if k < 60 then NothingStoredAt(UNSTORED, k) else ExactAt(UNSTORED, k) {
    }
    BlockBelowIff(UNSTORED, 60, BLOCK, 0);
    assert BLOB in UNSTORED.blobs && HasBlobs(UNSTORED, 0, "a");
  }

  /** A reorg removes one of two blocks from a minute below the edge that also has a blob. */
  lemma DeletedBlockMisleads()
    ensures KeptFrom(UNSTORED_PAIR, 60) && !Contiguous(BlockDeleted(UNSTORED_PAIR, 1, 0))
  {
    forall k ensures if k < 60 then NothingStoredAt(UNSTORED_PAIR, k) else ExactAt(UNSTORED_PAIR, k) {
    }
    BlockDeletedBelowIff(UNSTORED_PAIR, 60, 1, 0);
    assert BLOB in UNSTORED_PAIR.blobs && HasBlobs(UNSTORED_PAIR, 0, "a");
    assert Without(UNSTORED_PAIR.metrics, 1)[0] == BLOCK;
    assert HasBlocks(BlockDeleted(UNSTORED_PAIR, 1, 0), 0);
  }

  const TOO_LATE := FINE_RETENTION_SECONDS + 13

  /** Two days and thirteen seconds later a blob or a block arrives for the bucket, or leaves it. */
  lemma LateRowMisleads(step: Step)
    requires step in {
      InsertBlob(BLOB, TOO_LATE), InsertBlock(BLOCK2, TOO_LATE), DeleteBlob(0, TOO_LATE), DeleteBlock(0, TOO_LATE)}
    ensures var s := System(STORED, 0, TOO_LATE);
      KeptFrom(STORED, 0) && Possible(s, step) && !Contiguous(Next(s, step).store)
  {
    StoredIsKept();
    LateRowIff(System(STORED, 0, TOO_LATE), step);
  }

  // ---------- serving charts from fine buckets ----------

  /** `rows` lists a stored table: each entry once, as a row of the fine bucket size. */
  ghost predicate ListsBlobs(rows: seq<BlobRollup>, table: BlobTable) {
    && KeysDistinct(rows, BlobKey)
    && (forall i :: 0 <= i < |rows| && rows[i].bucketSeconds == BUCKET ==>
          (rows[i].start, rows[i].from) in table && rows[i].value == table[(rows[i].start, rows[i].from)])
    && (forall k :: k in table ==> KeyIn(rows, BlobKey, (BUCKET, k.0, k.1)))
  }

  ghost predicate ListsFees(rows: seq<MetricsRollup>, table: FeeTable) {
    && KeysDistinct(rows, FeeKey)
    && (forall i :: 0 <= i < |rows| && rows[i].bucketSeconds == BUCKET ==>
          rows[i].start in table && rows[i].value == table[rows[i].start])
    && (forall k :: k in table ==> KeyIn(rows, FeeKey, (BUCKET, k)))
  }

  lemma ExactBucketsAreExactRollups(st: Store, lo: int, hi: int, rows: seq<BlobRollup>, fees: seq<MetricsRollup>)
    requires forall k :: lo <= k < hi ==> ExactAt(st, k)
    requires ListsBlobs(rows, st.blobRollups) && ListsFees(fees, st.feeRollups)
    ensures BlobRollupsExact(rows, st.blobs, BUCKET, lo, hi) && FeeRollupsExact(fees, st.metrics, BUCKET, lo, hi)
  {
    forall i | 0 <= i < |rows| && rows[i].bucketSeconds == BUCKET && InRange(rows[i].start, lo, hi)
      ensures rows[i].value == BlobBucket(st.blobs, BUCKET, rows[i].start, rows[i].from)
    {
      assert ExactAt(st, rows[i].start);
    }
    forall b | b in st.blobs && InRange(Floor(b.time, BUCKET), lo, hi)
      ensures KeyIn(rows, BlobKey, (BUCKET, Floor(b.time, BUCKET), b.from))
    {
      var k := Floor(b.time, BUCKET);
      assert ExactAt(st, k) && HasBlobs(st, k, b.from);
      assert (k, b.from) in st.blobRollups;
    }
    forall i | 0 <= i < |fees| && fees[i].bucketSeconds == BUCKET && InRange(fees[i].start, lo, hi)
      ensures fees[i].value == FeeBucket(st.metrics, BUCKET, fees[i].start)
    {
      assert ExactAt(st, fees[i].start);
    }
    forall m | m in st.metrics && InRange(Floor(m.time, BUCKET), lo, hi)
      ensures KeyIn(fees, FeeKey, (BUCKET, Floor(m.time, BUCKET)))
    {
      var k := Floor(m.time, BUCKET);
      assert ExactAt(st, k) && HasBlocks(st, k);
    }
  }

  /** A sub-hour request starting at or above the edge is answered exactly, for a day after it was made:
      no such request reaches behind the retention. */
  lemma ChartAboveEdgeIsRawChart(
    s: System, range: string, granularity: string, pointLimit: int, asked: int, c: int,
    rows: seq<BlobRollup>, fees: seq<MetricsRollup>)
    requires Invariant(s) && s.now <= asked + SECONDS_PER_DAY && pointLimit <= MAX_CHART_POINT_LIMIT
    requires ListsBlobs(rows, s.store.blobRollups) && ListsFees(fees, s.store.feeRollups)
    requires ParseChartRequest(range, granularity, pointLimit, asked).Accepted?
    requires var r := ParseChartRequest(range, granularity, pointLimit, asked).request;
      && BoundedTime(r) && r.bucketSeconds < ROLLUP_MIN_BUCKET_SECONDS && SourceBucket(r, Some(c)).Some?
      && s.low <= r.startTime.value
    ensures var r := ParseChartRequest(range, granularity, pointLimit, asked).request;
      WellAligned(r) && RollupChart(r, rows, fees, BUCKET) == RawChart(r, s.store.blobs, s.store.metrics)
  {
    var r := ParseChartRequest(range, granularity, pointLimit, asked).request;
    SubHourFitsRetention(range, granularity, pointLimit, asked);
    assert r.startTime.value >= s.now - FINE_RETENTION_SECONDS;
    ExactBucketsAreExactRollups(s.store, r.startTime.value, r.endTime, rows, fees);
    RollupChartIsRawChart(range, granularity, pointLimit, asked, Some(c), rows, fees, s.store.blobs, s.store.metrics);
  }

  /** MAIN RESULT, end to end. Over any run of chunks, half prunes, rows coming and going and time passing in
      which no block bucket has been stored below the edge by the time of the probe, a sub-hour chart that the
      probe lets the fine buckets serve is the chart a raw scan would draw, whatever commits between the probe
      and the chart. */
  lemma FineChartIsRawChart(
    s0: System, before: seq<Step>, between: seq<Step>, range: string, granularity: string, pointLimit: int,
    asked: int, c: int, rows: seq<BlobRollup>, fees: seq<MetricsRollup>)
    requires Invariant(s0) && CoverageAbove(s0) && OrderlyRun(s0, before)
    requires IsCoverageStart(After(s0, before).store, c)
    requires var s := After(After(s0, before), between);
      && s.now <= asked + SECONDS_PER_DAY && pointLimit <= MAX_CHART_POINT_LIMIT
      && ListsBlobs(rows, s.store.blobRollups) && ListsFees(fees, s.store.feeRollups)
    requires ParseChartRequest(range, granularity, pointLimit, asked).Accepted?
    requires var r := ParseChartRequest(range, granularity, pointLimit, asked).request;
      BoundedTime(r) && r.bucketSeconds < ROLLUP_MIN_BUCKET_SECONDS && SourceBucket(r, Some(c)).Some?
    ensures var r := ParseChartRequest(range, granularity, pointLimit, asked).request;
      var s := After(After(s0, before), between);
      WellAligned(r) && RollupChart(r, rows, fees, BUCKET) == RawChart(r, s.store.blobs, s.store.metrics)
  {
    RunStaysExact(s0, before);
    RunKeepsCoverage(s0, before);
    RunStaysExact(After(s0, before), between);
    ChartAboveEdgeIsRawChart(
      After(After(s0, before), between), range, granularity, pointLimit, asked, c, rows, fees);
  }
}
