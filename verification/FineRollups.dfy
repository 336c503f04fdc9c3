/**
 Maintaining the fine (60-second) rollup buckets: triggers keep them current for rows within
 the retention, a backfill rewrites history chunk by chunk from the newest end, and a prune
 deletes expired buckets with one commit per table. The API serves from these buckets as soon
 as the oldest block bucket reaches the start of a request, so every bucket a request can read
 must be there and be right, whatever has committed so far.
 */
module FineRollups {
  import opened Common
  import opened Aggregation
  import opened ChartRollups

  const BUCKET: int := 60

  type BlobTable = map<(int, string), BlobAggregate>
  type FeeTable = map<int, FeeAggregate>

  /** Raw rows and stored fine buckets of one network. */
  datatype Store = Store(blobs: seq<BlobRow>, metrics: seq<MetricsRow>, blobRollups: BlobTable, feeRollups: FeeTable)

  // ---------- specification ----------

  ghost predicate HasBlobs(st: Store, start: int, from: string) {
    exists b :: b in st.blobs && Floor(b.time, BUCKET) == start && b.from == from
  }

  ghost predicate HasBlocks(st: Store, start: int) {
    exists m :: m in st.metrics && Floor(m.time, BUCKET) == start
  }

  /** The bucket's stored rows are present exactly for its raw rows, with their from-scratch aggregates. */
  ghost predicate ExactAt(st: Store, start: int) {
    && (forall from :: (start, from) in st.blobRollups <==> HasBlobs(st, start, from))
    && (forall from :: (start, from) in st.blobRollups ==>
          st.blobRollups[(start, from)] == BlobBucket(st.blobs, BUCKET, start, from))
    && (start in st.feeRollups <==> HasBlocks(st, start))
    && (start in st.feeRollups ==> st.feeRollups[start] == FeeBucket(st.metrics, BUCKET, start))
  }

  ghost predicate NothingStoredAt(st: Store, start: int) {
    start !in st.feeRollups && forall from :: (start, from) !in st.blobRollups
  }

  /** Every row stored for the bucket has raw rows behind it. */
  ghost predicate NoPhantomsAt(st: Store, start: int) {
    && (start in st.feeRollups ==> HasBlocks(st, start))
    && (forall from :: (start, from) in st.blobRollups ==> HasBlobs(st, start, from))
  }

  // ---------- what the statements and triggers do ----------

  /** Rows the chunk statements read for one group. */
  function BlobsOfChunk(start: int, end: int, bucket: int, from: string): BlobRow -> bool {
    (b: BlobRow) => InRange(b.time, start, end) && Floor(b.time, BUCKET) == bucket && b.from == from
  }

  function BlocksOfChunk(start: int, end: int, bucket: int): MetricsRow -> bool {
    (m: MetricsRow) => InRange(m.time, start, end) && Floor(m.time, BUCKET) == bucket
  }

  /** The groups the two statements produce for [start, end), aggregated over the chunk's own rows. */
  ghost function ChunkBlobs(blobs: seq<BlobRow>, start: int, end: int): BlobTable {
    map k | k in (set b | b in blobs && InRange(b.time, start, end) :: (Floor(b.time, BUCKET), b.from)) ::
      BlobSums(blobs, BlobsOfChunk(start, end, k.0, k.1))
  }

  ghost function ChunkFees(metrics: seq<MetricsRow>, start: int, end: int): FeeTable {
    map k | k in (set m | m in metrics && InRange(m.time, start, end) :: Floor(m.time, BUCKET)) ::
      FeeSums(metrics, BlocksOfChunk(start, end, k))
  }

  /** Upserting replaces the buckets the chunk has rows for and leaves the others alone. */
  ghost function Rewritten(st: Store, start: int, end: int): Store {
    st.(blobRollups := st.blobRollups + ChunkBlobs(st.blobs, start, end),
        feeRollups := st.feeRollups + ChunkFees(st.metrics, start, end))
  }

  function PruneCutoff(cutoff: int): int {
    Truncate(cutoff, BUCKET)
  }

  /** The first DELETE of a prune. */
  function BlobsPruned(st: Store, cutoff: int): Store {
    st.(blobRollups := map k | k in st.blobRollups && k.0 >= PruneCutoff(cutoff) :: st.blobRollups[k])
  }

  /** The second DELETE, committed on its own; its table is the coverage signal. */
  function FeesPruned(st: Store, cutoff: int): Store {
    st.(feeRollups := map k | k in st.feeRollups && k >= PruneCutoff(cutoff) :: st.feeRollups[k])
  }

  /** The triggers maintain fine buckets for rows within the retention only. */
  predicate Maintained(time: int, now: int) {
    time >= now - FINE_RETENTION_SECONDS
  }

  /** A row is maintained until it is two days old. */
  lemma MaintainedForTwoDays(time: int, now: int)
    ensures Maintained(time, now) <==> now - time <= 2 * 24 * 60 * 60
  {
  }

  function AddedTo(a: BlobAggregate, b: BlobRow): BlobAggregate {
    BlobAggregate(a.count + 1, a.bytes + b.size, a.gas + b.gas, a.cost + b.cost, a.sizeFee + b.size * b.baseFee)
  }

  /** A blob is inserted: the trigger adds its contribution to its bucket. */
  function BlobInserted(st: Store, b: BlobRow, now: int): Store {
    var k := (Floor(b.time, BUCKET), b.from);
    var before := if k in st.blobRollups then st.blobRollups[k] else NO_BLOBS;
    st.(blobs := st.blobs + [b],
        blobRollups := if Maintained(b.time, now) then st.blobRollups[k := AddedTo(before, b)] else st.blobRollups)
  }

  /** A block is inserted: the trigger recomputes its bucket. */
  ghost function BlockInserted(st: Store, m: MetricsRow, now: int): Store {
    var st' := st.(metrics := st.metrics + [m]);
    if Maintained(m.time, now) then FeesRefreshed(st', Floor(m.time, BUCKET)) else st'
  }

  function Without<T>(rows: seq<T>, i: nat): seq<T>
    requires i < |rows|
  {
    rows[..i] + rows[i + 1..]
  }

  /** A reorg deletes a blob: the trigger recomputes its bucket. */
  ghost function BlobDeleted(st: Store, i: nat, now: int): Store
    requires i < |st.blobs|
  {
    var st' := st.(blobs := Without(st.blobs, i));
    var b := st.blobs[i];
    if Maintained(b.time, now) then BlobsRefreshed(st', Floor(b.time, BUCKET), b.from) else st'
  }

  ghost function BlockDeleted(st: Store, i: nat, now: int): Store
    requires i < |st.metrics|
  {
    var st' := st.(metrics := Without(st.metrics, i));
    var m := st.metrics[i];
    if Maintained(m.time, now) then FeesRefreshed(st', Floor(m.time, BUCKET)) else st'
  }

  /** Recomputing a bucket from its raw rows; a bucket without any loses its row. */
  ghost function BlobsRefreshed(st: Store, start: int, from: string): Store {
    st.(blobRollups :=
      if HasBlobs(st, start, from)
      then st.blobRollups[(start, from) := BlobBucket(st.blobs, BUCKET, start, from)]
      else st.blobRollups - {(start, from)})
  }

  ghost function FeesRefreshed(st: Store, start: int): Store {
    st.(feeRollups :=
      if HasBlocks(st, start)
      then st.feeRollups[start := FeeBucket(st.metrics, BUCKET, start)]
      else st.feeRollups - {start})
  }

  // ---------- the imperative form ----------

  lemma SumAppend<R>(rows: seq<R>, r: R, p: R -> bool, f: R -> int)
    ensures Sum(rows + [r], p, f) == Sum(rows, p, f) + if p(r) then f(r) else 0
  {
    assert (rows + [r])[..|rows|] == rows;
  }

  lemma PickedAppend<R>(rows: seq<R>, r: R, p: R -> bool)
    ensures Picked(rows + [r], p) == Picked(rows, p) + if p(r) then multiset{r} else multiset{}
  {
    assert (rows + [r])[..|rows|] == rows;
  }

  const NO_BLOBS: BlobAggregate := BlobAggregate(0, 0, 0, 0, 0)
  const NO_FEES: FeeAggregate := FeeAggregate(0, 0, multiset{})

  lemma BlobSumsAppend(blobs: seq<BlobRow>, b: BlobRow, p: BlobRow -> bool)
    ensures BlobSums(blobs + [b], p) == if p(b) then AddedTo(BlobSums(blobs, p), b) else BlobSums(blobs, p)
  {
    SumAppend(blobs, b, p, ONE);
    SumAppend(blobs, b, p, SIZE);
    SumAppend(blobs, b, p, GAS);
    SumAppend(blobs, b, p, COST);
    SumAppend(blobs, b, p, SIZE_FEE);
  }

  lemma NoBlobSums(blobs: seq<BlobRow>, p: BlobRow -> bool)
    requires forall b :: b in blobs ==> !p(b)
    ensures BlobSums(blobs, p) == NO_BLOBS
  {
    SumNone(blobs, p, ONE);
    SumNone(blobs, p, SIZE);
    SumNone(blobs, p, GAS);
    SumNone(blobs, p, COST);
    SumNone(blobs, p, SIZE_FEE);
  }

  function FeeAddedTo(a: FeeAggregate, m: MetricsRow): FeeAggregate {
    FeeAggregate(
      a.sumBaseFee + m.baseFee, if m.baseFee > 0 then a.feeBlocks + 1 else a.feeBlocks, a.rows + multiset{m})
  }

  lemma FeeSumsAppend(metrics: seq<MetricsRow>, m: MetricsRow, p: MetricsRow -> bool)
    ensures FeeSums(metrics + [m], p) == if p(m) then FeeAddedTo(FeeSums(metrics, p), m) else FeeSums(metrics, p)
  {
    SumAppend(metrics, m, p, BASE_FEE);
    SumAppend(metrics, m, p, FEE_RECORDED);
    PickedAppend(metrics, m, p);
  }

  lemma NoFeeSums(metrics: seq<MetricsRow>, p: MetricsRow -> bool)
    requires forall m :: m in metrics ==> !p(m)
    ensures FeeSums(metrics, p) == NO_FEES
  {
    SumNone(metrics, p, BASE_FEE);
    SumNone(metrics, p, FEE_RECORDED);
    PickedNone(metrics, p);
  }

  lemma ChunkBlobsAt(rows: seq<BlobRow>, b: BlobRow, start: int, end: int, k: (int, string))
    ensures var groups, groups' := ChunkBlobs(rows, start, end), ChunkBlobs(rows + [b], start, end);
      var before := if k in groups then groups[k] else NO_BLOBS;
      var mine := InRange(b.time, start, end) && k == (Floor(b.time, BUCKET), b.from);
      && (k in groups' <==> k in groups || mine)
      && (k in groups' ==> groups'[k] == if mine then AddedTo(before, b) else before)
  {
    var groups := ChunkBlobs(rows, start, end);
    assert forall x :: x in rows + [b] <==> x in rows || x == b;
    BlobSumsAppend(rows, b, BlobsOfChunk(start, end, k.0, k.1));
    if k !in groups {
      NoBlobSums(rows, BlobsOfChunk(start, end, k.0, k.1));
    }
  }

  /** One more row changes its own group and no other. */
  lemma ChunkBlobsAppend(rows: seq<BlobRow>, b: BlobRow, start: int, end: int)
    ensures var groups, k := ChunkBlobs(rows, start, end), (Floor(b.time, BUCKET), b.from);
      ChunkBlobs(rows + [b], start, end) ==
        if InRange(b.time, start, end) then groups[k := AddedTo(if k in groups then groups[k] else NO_BLOBS, b)]
        else groups
  {
    forall k {
      ChunkBlobsAt(rows, b, start, end, k);
    }
  }

  lemma ChunkFeesAt(rows: seq<MetricsRow>, m: MetricsRow, start: int, end: int, k: int)
    ensures var groups, groups' := ChunkFees(rows, start, end), ChunkFees(rows + [m], start, end);
      var before := if k in groups then groups[k] else NO_FEES;
      var mine := InRange(m.time, start, end) && k == Floor(m.time, BUCKET);
      && (k in groups' <==> k in groups || mine)
      && (k in groups' ==> groups'[k] == if mine then FeeAddedTo(before, m) else before)
  {
    var groups := ChunkFees(rows, start, end);
    assert forall x :: x in rows + [m] <==> x in rows || x == m;
    FeeSumsAppend(rows, m, BlocksOfChunk(start, end, k));
    if k !in groups {
      NoFeeSums(rows, BlocksOfChunk(start, end, k));
    }
  }

  /** One more row changes its own group and no other. */
  lemma ChunkFeesAppend(rows: seq<MetricsRow>, m: MetricsRow, start: int, end: int)
    ensures var groups, k := ChunkFees(rows, start, end), Floor(m.time, BUCKET);
      ChunkFees(rows + [m], start, end) ==
        if InRange(m.time, start, end) then groups[k := FeeAddedTo(if k in groups then groups[k] else NO_FEES, m)]
        else groups
  {
    forall k {
      ChunkFeesAt(rows, m, start, end, k);
    }
  }

  /** GROUP BY bucket and sender over the chunk's blobs, one row at a time. */
  method GroupBlobs(blobs: seq<BlobRow>, start: int, end: int) returns (groups: BlobTable)
    ensures groups == ChunkBlobs(blobs, start, end)
  {
    groups := map[];
    for i := 0 to |blobs|
      invariant groups == ChunkBlobs(blobs[..i], start, end)
    {
      var b := blobs[i];
      assert blobs[..i + 1] == blobs[..i] + [b];
      ChunkBlobsAppend(blobs[..i], b, start, end);
      if start <= b.time < end {
        var k := (b.time / BUCKET * BUCKET, b.from);
        groups := groups[k := AddedTo(if k in groups then groups[k] else NO_BLOBS, b)];
      }
    }
    assert blobs[..|blobs|] == blobs;
  }

  method GroupFees(metrics: seq<MetricsRow>, start: int, end: int) returns (groups: FeeTable)
    ensures groups == ChunkFees(metrics, start, end)
  {
    groups := map[];
    for i := 0 to |metrics|
      invariant groups == ChunkFees(metrics[..i], start, end)
    {
      var m := metrics[i];
      assert metrics[..i + 1] == metrics[..i] + [m];
      ChunkFeesAppend(metrics[..i], m, start, end);
      if start <= m.time < end {
        var k := m.time / BUCKET * BUCKET;
        groups := groups[k := FeeAddedTo(if k in groups then groups[k] else NO_FEES, m)];
      }
    }
    assert metrics[..|metrics|] == metrics;
  }

  class RollupTables {
    var blobs: seq<BlobRow>
    var metrics: seq<MetricsRow>
    var blobRollups: BlobTable
    var feeRollups: FeeTable

    constructor (blobs: seq<BlobRow>, metrics: seq<MetricsRow>)
      ensures View() == Store(blobs, metrics, map[], map[])
    {
      this.blobs, this.metrics := blobs, metrics;
      blobRollups, feeRollups := map[], map[];
    }

    ghost function View(): Store
      reads this
    {
      Store(blobs, metrics, blobRollups, feeRollups)
    }

    /** Both statements in one transaction; misaligned bounds are refused before anything is read. */
    method BackfillFineChartRollupsChunk(start: int, end: int, dbOk: bool) returns (ok: bool)
      modifies this
      ensures ok <==> dbOk && Aligned(start, BUCKET) && Aligned(end, BUCKET)
      ensures View() == if ok then Rewritten(old(View()), start, end) else old(View())
    {
      TruncateIsFloor(start, BUCKET);
      TruncateIsFloor(end, BUCKET);
      if Truncate(start, BUCKET) != start || Truncate(end, BUCKET) != end || !dbOk {
        return false;
      }
      var blobGroups := GroupBlobs(blobs, start, end);
      var feeGroups := GroupFees(metrics, start, end);
      blobRollups := blobRollups + blobGroups;
      feeRollups := feeRollups + feeGroups;
      return true;
    }

    /** Two statements, each committed on its own; the first that fails ends the prune. `total` counts what
        has been removed by then. */
    method PruneFineChartRollups(cutoff: int, blobsOk: bool, feesOk: bool) returns (ok: bool, total: nat)
      modifies this
      ensures ok <==> blobsOk && feesOk
      ensures View() ==
        if !blobsOk then old(View())
        else if !feesOk then BlobsPruned(old(View()), cutoff)
        else FeesPruned(BlobsPruned(old(View()), cutoff), cutoff)
      ensures total == (|old(blobRollups)| - |blobRollups|) + (|old(feeRollups)| - |feeRollups|)
    {
      ok, total := false, 0;
      var aligned := PruneCutoff(cutoff);
      if !blobsOk {
        return;
      }
      var keptBlobs := map k | k in blobRollups && k.0 >= aligned :: blobRollups[k];
      SubsetSize(keptBlobs.Keys, blobRollups.Keys);
      total := |blobRollups| - |keptBlobs|;
      blobRollups := keptBlobs;
      if !feesOk {
        return;
      }
      var keptFees := map k | k in feeRollups && k >= aligned :: feeRollups[k];
      SubsetSize(keptFees.Keys, feeRollups.Keys);
      total := total + (|feeRollups| - |keptFees|);
      feeRollups := keptFees;
      ok := true;
    }

    /** Newest first; the first chunk that fails ends the run. `committed` says how many chunks go through. */
    method BackfillFineRollups(start: int, end: int, committed: nat) returns (completed: bool)
      requires Aligned(start, BUCKET) && Aligned(end, BUCKET)
      modifies this
      ensures completed <==> committed >= |BackfillChunks(start, end)|
      ensures committed >= |BackfillChunks(start, end)| ==>
        View() == AllRewritten(old(View()), BackfillChunks(start, end))
      ensures committed < |BackfillChunks(start, end)| ==>
        View() == AllRewritten(old(View()), BackfillChunks(start, end)[..committed])
    {
      var chunkEnd := end;
      var left := committed;
      ghost var done: seq<(int, int)> := [];
      ghost var before := View();
      assert done + BackfillChunks(start, end) == BackfillChunks(start, end);
      while chunkEnd > start
        invariant |done| + left == committed
        invariant Aligned(chunkEnd, BUCKET)
        invariant done + BackfillChunks(start, chunkEnd) == BackfillChunks(start, end)
        invariant View() == AllRewritten(before, done)
        decreases chunkEnd - start
      {
        var chunkStart := if chunkEnd - CHUNK_SECONDS < start then start else chunkEnd - CHUNK_SECONDS;
        ShiftAligned(chunkEnd, -60, BUCKET);
        var ok := BackfillFineChartRollupsChunk(chunkStart, chunkEnd, left > 0);
        if !ok {
          assert done == BackfillChunks(start, end)[..committed];
          return false;
        }
        ghost var next := done + [(chunkStart, chunkEnd)];
        assert next[..|next| - 1] == done;
        OneMoreChunk(done, start, chunkStart, chunkEnd);
        left := left - 1;
        done := next;
        chunkEnd := chunkStart;
      }
      assert done + [] == done;
      return true;
    }
  }

  const CHUNK_SECONDS: int := 3600

  /** The driver's chunks: from `end` down to `start` by the hour, the last one cut short. */
  function BackfillChunks(start: int, end: int): seq<(int, int)>
    decreases end - start
  {
    if end <= start then []
    else
      var chunkStart := if end - CHUNK_SECONDS < start then start else end - CHUNK_SECONDS;
      [(chunkStart, end)] + BackfillChunks(start, chunkStart)
  }

  ghost function AllRewritten(st: Store, chunks: seq<(int, int)>): Store {
    if chunks == [] then st
    else
      var last := chunks[|chunks| - 1];
      Rewritten(AllRewritten(st, chunks[..|chunks| - 1]), last.0, last.1)
  }

  lemma OneMoreChunk(done: seq<(int, int)>, start: int, chunkStart: int, chunkEnd: int)
    requires chunkEnd > start
    requires chunkStart == if chunkEnd - CHUNK_SECONDS < start then start else chunkEnd - CHUNK_SECONDS
    ensures (done + [(chunkStart, chunkEnd)]) + BackfillChunks(start, chunkStart) ==
      done + BackfillChunks(start, chunkEnd)
  {
  }

  /** The chunks are aligned, contiguous from `end` down, and non-empty. */
  lemma {:induction false} BackfillShape(start: int, end: int)
    requires Aligned(start, BUCKET) && Aligned(end, BUCKET)
    ensures var chunks := BackfillChunks(start, end);
      && (forall i :: 0 <= i < |chunks| ==>
            chunks[i].0 < chunks[i].1 && Aligned(chunks[i].0, BUCKET) && Aligned(chunks[i].1, BUCKET))
      && (chunks != [] ==> chunks[0].1 == end && chunks[|chunks| - 1].0 == start)
      && (forall i :: 0 <= i < |chunks| - 1 ==> chunks[i + 1].1 == chunks[i].0)
      && (chunks == [] <==> end <= start)
    decreases end - start
  {
    if end > start {
      var chunkStart := if end - CHUNK_SECONDS < start then start else end - CHUNK_SECONDS;
      ShiftAligned(end, -60, BUCKET);
      BackfillShape(start, chunkStart);
      var rest := BackfillChunks(start, chunkStart);
      var chunks := BackfillChunks(start, end);
      assert forall i :: 0 < i < |chunks| ==> chunks[i] == rest[i - 1];
    }
  }

  // ---------- rewriting a chunk ----------

  /** An aligned chunk contains all the rows of each of its buckets, and of no other. */
  lemma ChunkHoldsWholeBuckets(t: int, start: int, end: int)
    requires Aligned(start, BUCKET) && Aligned(end, BUCKET)
    ensures InRange(t, start, end) <==> InRange(Floor(t, BUCKET), start, end)
  {
    AlignedBound(start, t, BUCKET);
    AlignedBound(end, t, BUCKET);
  }

  lemma ChunkAggregates(st: Store, start: int, end: int, k: int)
    requires Aligned(start, BUCKET) && Aligned(end, BUCKET) && InRange(k, start, end)
    ensures forall from ::
      BlobSums(st.blobs, BlobsOfChunk(start, end, k, from)) == BlobBucket(st.blobs, BUCKET, k, from)
    ensures FeeSums(st.metrics, BlocksOfChunk(start, end, k)) == FeeBucket(st.metrics, BUCKET, k)
  {
    forall b: BlobRow ensures Floor(b.time, BUCKET) == k ==> InRange(b.time, start, end) {
      ChunkHoldsWholeBuckets(b.time, start, end);
    }
    forall m: MetricsRow ensures Floor(m.time, BUCKET) == k ==> InRange(m.time, start, end) {
      ChunkHoldsWholeBuckets(m.time, start, end);
    }
    forall from ensures BlobSums(st.blobs, BlobsOfChunk(start, end, k, from)) == BlobBucket(st.blobs, BUCKET, k, from) {
      var p, q := BlobsOfChunk(start, end, k, from), BlobsBehind(BUCKET, k, from);
      SumCongruent(st.blobs, p, q, ONE, ONE);
      SumCongruent(st.blobs, p, q, SIZE, SIZE);
      SumCongruent(st.blobs, p, q, GAS, GAS);
      SumCongruent(st.blobs, p, q, COST, COST);
      SumCongruent(st.blobs, p, q, SIZE_FEE, SIZE_FEE);
    }
    var p, q := BlocksOfChunk(start, end, k), BlocksBehind(BUCKET, k);
    SumCongruent(st.metrics, p, q, BASE_FEE, BASE_FEE);
    SumCongruent(st.metrics, p, q, FEE_RECORDED, FEE_RECORDED);
    PickedCongruent(st.metrics, p, q);
  }

  /** MAIN RESULT. Rewriting an aligned chunk sets each of its buckets with raw rows to the from-scratch
      aggregate, keeps its other buckets, and changes no bucket outside it. */
  lemma ChunkRewritesItsBuckets(st: Store, start: int, end: int, k: int, from: string)
    requires Aligned(start, BUCKET) && Aligned(end, BUCKET)
    ensures var st' := Rewritten(st, start, end);
      && (InRange(k, start, end) && HasBlobs(st, k, from) ==>
            (k, from) in st'.blobRollups && st'.blobRollups[(k, from)] == BlobBucket(st.blobs, BUCKET, k, from))
      && (!(InRange(k, start, end) && HasBlobs(st, k, from)) ==>
            ((k, from) in st'.blobRollups <==> (k, from) in st.blobRollups) &&
            ((k, from) in st.blobRollups ==> st'.blobRollups[(k, from)] == st.blobRollups[(k, from)]))
      && (InRange(k, start, end) && HasBlocks(st, k) ==>
            k in st'.feeRollups && st'.feeRollups[k] == FeeBucket(st.metrics, BUCKET, k))
      && (!(InRange(k, start, end) && HasBlocks(st, k)) ==>
            (k in st'.feeRollups <==> k in st.feeRollups) &&
            (k in st.feeRollups ==> st'.feeRollups[k] == st.feeRollups[k]))
  {
    ChunkKeys(st, start, end, k, from);
    if InRange(k, start, end) {
      ChunkAggregates(st, start, end, k);
    }
  }

  lemma ChunkKeys(st: Store, start: int, end: int, k: int, from: string)
    requires Aligned(start, BUCKET) && Aligned(end, BUCKET)
    ensures (k, from) in ChunkBlobs(st.blobs, start, end) <==> InRange(k, start, end) && HasBlobs(st, k, from)
    ensures k in ChunkFees(st.metrics, start, end) <==> InRange(k, start, end) && HasBlocks(st, k)
  {
    forall b | b in st.blobs ensures InRange(b.time, start, end) <==> InRange(Floor(b.time, BUCKET), start, end) {
      ChunkHoldsWholeBuckets(b.time, start, end);
    }
    forall m | m in st.metrics ensures InRange(m.time, start, end) <==> InRange(Floor(m.time, BUCKET), start, end) {
      ChunkHoldsWholeBuckets(m.time, start, end);
    }
    if InRange(k, start, end) && HasBlobs(st, k, from) {
      var b :| b in st.blobs && Floor(b.time, BUCKET) == k && b.from == from;
      assert (Floor(b.time, BUCKET), b.from) in ChunkBlobs(st.blobs, start, end);
    }
    if InRange(k, start, end) && HasBlocks(st, k) {
      var m :| m in st.metrics && Floor(m.time, BUCKET) == k;
      assert Floor(m.time, BUCKET) in ChunkFees(st.metrics, start, end);
    }
  }

  /** Each group of an aligned chunk holds exactly the rows of its bucket, so any column at all comes out as it
      would from scratch. */
  lemma ChunkSeesWholeBuckets(st: Store, start: int, end: int, k: int, from: string)
    requires Aligned(start, BUCKET) && Aligned(end, BUCKET) && InRange(k, start, end)
    ensures Picked(st.blobs, BlobsOfChunk(start, end, k, from)) == Picked(st.blobs, BlobsBehind(BUCKET, k, from))
    ensures Picked(st.metrics, BlocksOfChunk(start, end, k)) == Picked(st.metrics, BlocksBehind(BUCKET, k))
  {
    forall b: BlobRow ensures Floor(b.time, BUCKET) == k ==> InRange(b.time, start, end) {
      ChunkHoldsWholeBuckets(b.time, start, end);
    }
    forall m: MetricsRow ensures Floor(m.time, BUCKET) == k ==> InRange(m.time, start, end) {
      ChunkHoldsWholeBuckets(m.time, start, end);
    }
    PickedCongruent(st.blobs, BlobsOfChunk(start, end, k, from), BlobsBehind(BUCKET, k, from));
    PickedCongruent(st.metrics, BlocksOfChunk(start, end, k), BlocksBehind(BUCKET, k));
  }

  /** Rewriting makes every bucket of the chunk exact that stores nothing without raw rows, and leaves the
      others as they are. */
  lemma RewrittenAt(st: Store, start: int, end: int, k: int)
    requires Aligned(start, BUCKET) && Aligned(end, BUCKET)
    ensures InRange(k, start, end) && NoPhantomsAt(st, k) ==> ExactAt(Rewritten(st, start, end), k)
    ensures !InRange(k, start, end) ==> SameAt(st, Rewritten(st, start, end), k)
  {
    var st' := Rewritten(st, start, end);
    forall from
      ensures HasBlobs(st', k, from) <==> HasBlobs(st, k, from)
      ensures InRange(k, start, end) && HasBlobs(st, k, from) ==>
        (k, from) in st'.blobRollups && st'.blobRollups[(k, from)] == BlobBucket(st.blobs, BUCKET, k, from)
      ensures !(InRange(k, start, end) && HasBlobs(st, k, from)) ==>
        ((k, from) in st'.blobRollups <==> (k, from) in st.blobRollups) &&
        ((k, from) in st.blobRollups ==> st'.blobRollups[(k, from)] == st.blobRollups[(k, from)])
    {
      ChunkRewritesItsBuckets(st, start, end, k, from);
    }
    ChunkRewritesItsBuckets(st, start, end, k, "");
    assert HasBlocks(st', k) <==> HasBlocks(st, k);
  }

  // ---------- one bucket under each step ----------

  /** The bucket's stored rows and the aggregates of its raw rows are the same. */
  ghost predicate SameAt(st: Store, st': Store, k: int) {
    SameBlobsAt(st, st', k) && SameFeesAt(st, st', k)
  }

  ghost predicate SameBlobsAt(st: Store, st': Store, k: int) {
    forall from ::
      && (HasBlobs(st', k, from) <==> HasBlobs(st, k, from))
      && ((k, from) in st'.blobRollups <==> (k, from) in st.blobRollups)
      && ((k, from) in st.blobRollups ==> st'.blobRollups[(k, from)] == st.blobRollups[(k, from)])
      && BlobBucket(st'.blobs, BUCKET, k, from) == BlobBucket(st.blobs, BUCKET, k, from)
  }

  ghost predicate SameFeesAt(st: Store, st': Store, k: int) {
    && (HasBlocks(st', k) <==> HasBlocks(st, k))
    && (k in st'.feeRollups <==> k in st.feeRollups)
    && (k in st.feeRollups ==> st'.feeRollups[k] == st.feeRollups[k])
    && FeeBucket(st'.metrics, BUCKET, k) == FeeBucket(st.metrics, BUCKET, k)
  }

  lemma SameIsAsExact(st: Store, st': Store, k: int)
    requires SameAt(st, st', k)
    ensures ExactAt(st', k) <==> ExactAt(st, k)
    ensures NoPhantomsAt(st', k) <==> NoPhantomsAt(st, k)
    ensures NothingStoredAt(st', k) <==> NothingStoredAt(st, k)
  {
  }

  /** The step keeps the bucket as good as it was. */
  ghost predicate AsGoodAt(st: Store, st': Store, k: int) {
    (ExactAt(st, k) ==> ExactAt(st', k)) && (NoPhantomsAt(st, k) ==> NoPhantomsAt(st', k))
  }

  /** A prune touches no bucket at or after its cutoff, not even between its two commits. */
  lemma PrunedAt(st: Store, cutoff: int, k: int)
    requires k >= PruneCutoff(cutoff)
    ensures SameAt(st, BlobsPruned(st, cutoff), k) && SameAt(st, FeesPruned(st, cutoff), k)
  {
    assert forall from :: HasBlobs(BlobsPruned(st, cutoff), k, from) <==> HasBlobs(st, k, from);
    assert forall from :: HasBlobs(FeesPruned(st, cutoff), k, from) <==> HasBlobs(st, k, from);
  }

  /** A row too old to be maintained lies in a bucket too old to be kept. */
  lemma MaintainedBucket(time: int, now: int, k: int)
    requires k >= now - FINE_RETENTION_SECONDS && !Maintained(time, now)
    ensures Floor(time, BUCKET) < k
  {
    FloorFacts(time, BUCKET);
  }

  lemma BlobInsertedElsewhere(st: Store, b: BlobRow, now: int, k: int)
    requires Floor(b.time, BUCKET) != k
    ensures SameAt(st, BlobInserted(st, b, now), k)
  {
    var st' := BlobInserted(st, b, now);
    forall from
      ensures HasBlobs(st', k, from) <==> HasBlobs(st, k, from)
      ensures BlobBucket(st'.blobs, BUCKET, k, from) == BlobBucket(st.blobs, BUCKET, k, from)
    {
      BlobSumsAppend(st.blobs, b, BlobsBehind(BUCKET, k, from));
    }
    assert HasBlocks(st', k) <==> HasBlocks(st, k);
  }

  lemma BlobInsertedAt(st: Store, b: BlobRow, now: int, k: int)
    requires k >= now - FINE_RETENTION_SECONDS || Maintained(b.time, now)
    ensures AsGoodAt(st, BlobInserted(st, b, now), k)
  {
    var st' := BlobInserted(st, b, now);
    if Floor(b.time, BUCKET) != k {
      BlobInsertedElsewhere(st, b, now, k);
      SameIsAsExact(st, st', k);
    } else {
      if !Maintained(b.time, now) {
        MaintainedBucket(b.time, now, k);
      }
      assert HasBlocks(st', k) <==> HasBlocks(st, k);
      forall from {
        BlobInsertedForSender(st, b, now, from);
      }
    }
  }

  lemma BlobInsertedForSender(st: Store, b: BlobRow, now: int, from: string)
    requires Maintained(b.time, now)
    ensures var st', k := BlobInserted(st, b, now), Floor(b.time, BUCKET);
      && (from == b.from ==> HasBlobs(st', k, from))
      && (from != b.from ==> (HasBlobs(st', k, from) <==> HasBlobs(st, k, from)))
      && (((k, from) in st.blobRollups <==> HasBlobs(st, k, from)) &&
          ((k, from) in st.blobRollups ==> st.blobRollups[(k, from)] == BlobBucket(st.blobs, BUCKET, k, from)) ==>
            ((k, from) in st'.blobRollups ==> st'.blobRollups[(k, from)] == BlobBucket(st'.blobs, BUCKET, k, from)))
  {
    var st', k := BlobInserted(st, b, now), Floor(b.time, BUCKET);
    BlobSumsAppend(st.blobs, b, BlobsBehind(BUCKET, k, from));
    assert b in st'.blobs;
    if !HasBlobs(st, k, from) {
      NoBlobSums(st.blobs, BlobsBehind(BUCKET, k, from));
    } else {
      var x :| x in st.blobs && Floor(x.time, BUCKET) == k && x.from == from;
      assert x in st'.blobs;
    }
  }

  /** Recomputing one bucket makes its row exact and leaves every other row of the table alone. */
  lemma FeesRefreshedAt(st: Store, start: int, k: int)
    ensures var st' := FeesRefreshed(st, start);
      && (HasBlocks(st', k) <==> HasBlocks(st, k))
      && (forall from :: HasBlobs(st', k, from) <==> HasBlobs(st, k, from))
      && (k != start ==> (k in st'.feeRollups <==> k in st.feeRollups))
      && (k != start && k in st.feeRollups ==> st'.feeRollups[k] == st.feeRollups[k])
      && (k == start ==> (k in st'.feeRollups <==> HasBlocks(st, k)))
      && (k == start && k in st'.feeRollups ==> st'.feeRollups[k] == FeeBucket(st.metrics, BUCKET, k))
  {
    var st' := FeesRefreshed(st, start);
    assert forall from :: HasBlobs(st', k, from) <==> HasBlobs(st, k, from);
    assert HasBlocks(st', k) <==> HasBlocks(st, k);
  }

  lemma BlobsRefreshedAt(st: Store, start: int, from: string, k: int, other: string)
    ensures var st' := BlobsRefreshed(st, start, from);
      && (HasBlocks(st', k) <==> HasBlocks(st, k))
      && (HasBlobs(st', k, other) <==> HasBlobs(st, k, other))
      && ((k, other) != (start, from) ==>
            ((k, other) in st'.blobRollups <==> (k, other) in st.blobRollups) &&
            ((k, other) in st.blobRollups ==> st'.blobRollups[(k, other)] == st.blobRollups[(k, other)]))
      && ((k, other) == (start, from) ==>
            ((k, other) in st'.blobRollups <==> HasBlobs(st, k, other)) &&
            ((k, other) in st'.blobRollups ==> st'.blobRollups[(k, other)] == BlobBucket(st.blobs, BUCKET, k, other)))
  {
    var st' := BlobsRefreshed(st, start, from);
    assert HasBlobs(st', k, other) <==> HasBlobs(st, k, other);
    assert HasBlocks(st', k) <==> HasBlocks(st, k);
  }

  lemma BlockInsertedElsewhere(st: Store, m: MetricsRow, now: int, k: int)
    requires Floor(m.time, BUCKET) != k
    ensures SameAt(st, BlockInserted(st, m, now), k)
  {
    var st' := BlockInserted(st, m, now);
    FeeSumsAppend(st.metrics, m, BlocksBehind(BUCKET, k));
    assert forall x :: x in st'.metrics <==> x in st.metrics || x == m;
    assert HasBlocks(st', k) <==> HasBlocks(st, k);
    assert forall from :: HasBlobs(st', k, from) <==> HasBlobs(st, k, from);
  }

  lemma BlockInsertedAt(st: Store, m: MetricsRow, now: int, k: int)
    requires k >= now - FINE_RETENTION_SECONDS || Maintained(m.time, now)
    ensures AsGoodAt(st, BlockInserted(st, m, now), k)
  {
    var st' := BlockInserted(st, m, now);
    if Floor(m.time, BUCKET) != k {
      BlockInsertedElsewhere(st, m, now, k);
      SameIsAsExact(st, st', k);
    } else {
      if !Maintained(m.time, now) {
        MaintainedBucket(m.time, now, k);
      }
      FeesRefreshedAt(st.(metrics := st.metrics + [m]), k, k);
      assert forall from :: HasBlobs(st', k, from) <==> HasBlobs(st, k, from);
    }
  }

  lemma WithoutElements<T>(rows: seq<T>, i: nat)
    requires i < |rows|
    ensures forall x :: x in Without(rows, i) ==> x in rows
    ensures forall x :: x in rows && x != rows[i] ==> x in Without(rows, i)
  {
    forall x | x in rows && x != rows[i] ensures x in Without(rows, i) {
      var j :| 0 <= j < |rows| && rows[j] == x;
      assert x == if j < i then rows[..i][j] else rows[i + 1..][j - i - 1];
    }
  }

  lemma WithoutEarlier<T>(rows: seq<T>, i: nat)
    requires i < |rows| - 1
    ensures Without(rows, i) == Without(rows[..|rows| - 1], i) + [rows[|rows| - 1]]
  {
    var last := |rows| - 1;
    assert rows[i + 1..] == rows[..last][i + 1..] + [rows[last]];
    assert rows[..i] == rows[..last][..i];
  }

  lemma {:induction false} SumWithout<R>(rows: seq<R>, i: nat, p: R -> bool, f: R -> int)
    requires i < |rows|
    ensures Sum(rows, p, f) == Sum(Without(rows, i), p, f) + if p(rows[i]) then f(rows[i]) else 0
  {
    var last := |rows| - 1;
    if i == last {
      assert Without(rows, i) == rows[..last];
    } else {
      SumWithout(rows[..last], i, p, f);
      WithoutEarlier(rows, i);
      SumAppend(Without(rows[..last], i), rows[last], p, f);
    }
  }

  lemma {:induction false} PickedWithout<R>(rows: seq<R>, i: nat, p: R -> bool)
    requires i < |rows|
    ensures Picked(rows, p) == Picked(Without(rows, i), p) + if p(rows[i]) then multiset{rows[i]} else multiset{}
  {
    var last := |rows| - 1;
    var init := rows[..last];
    assert rows == init + [rows[last]];
    if i == last {
      assert Without(rows, i) == init;
    } else {
      var removed := if p(rows[i]) then multiset{rows[i]} else multiset{};
      var added := if p(rows[last]) then multiset{rows[last]} else multiset{};
      PickedWithout(init, i, p);
      WithoutEarlier(rows, i);
      PickedAppend(Without(init, i), rows[last], p);
      assert Picked(rows, p) == (Picked(Without(init, i), p) + removed) + added;
      assert Picked(Without(rows, i), p) == Picked(Without(init, i), p) + added;
    }
  }

  lemma BlobRemovedElsewhere(st: Store, i: nat, k: int, from: string)
    requires i < |st.blobs| && !BlobsBehind(BUCKET, k, from)(st.blobs[i])
    ensures var st' := st.(blobs := Without(st.blobs, i));
      && (HasBlobs(st', k, from) <==> HasBlobs(st, k, from))
      && BlobBucket(st'.blobs, BUCKET, k, from) == BlobBucket(st.blobs, BUCKET, k, from)
  {
    var p := BlobsBehind(BUCKET, k, from);
    WithoutElements(st.blobs, i);
    SumWithout(st.blobs, i, p, ONE);
    SumWithout(st.blobs, i, p, SIZE);
    SumWithout(st.blobs, i, p, GAS);
    SumWithout(st.blobs, i, p, COST);
    SumWithout(st.blobs, i, p, SIZE_FEE);
    if HasBlobs(st, k, from) {
      var x :| x in st.blobs && Floor(x.time, BUCKET) == k && x.from == from;
      assert x in Without(st.blobs, i);
    }
  }

  lemma BlobDeletedElsewhere(st: Store, i: nat, now: int, k: int)
    requires i < |st.blobs| && Floor(st.blobs[i].time, BUCKET) != k
    ensures SameAt(st, BlobDeleted(st, i, now), k)
  {
    var st' := BlobDeleted(st, i, now);
    var removed := st.(blobs := Without(st.blobs, i));
    assert HasBlocks(st', k) <==> HasBlocks(st, k);
    forall from
      ensures HasBlobs(st', k, from) <==> HasBlobs(st, k, from)
      ensures BlobBucket(st'.blobs, BUCKET, k, from) == BlobBucket(st.blobs, BUCKET, k, from)
    {
      BlobRemovedElsewhere(st, i, k, from);
      assert HasBlobs(st', k, from) <==> HasBlobs(removed, k, from);
    }
  }

  lemma BlobDeletedAt(st: Store, i: nat, now: int, k: int)
    requires i < |st.blobs| && (k >= now - FINE_RETENTION_SECONDS || Maintained(st.blobs[i].time, now))
    ensures AsGoodAt(st, BlobDeleted(st, i, now), k)
  {
    var b := st.blobs[i];
    var st' := BlobDeleted(st, i, now);
    if Floor(b.time, BUCKET) != k {
      BlobDeletedElsewhere(st, i, now, k);
      SameIsAsExact(st, st', k);
    } else {
      if !Maintained(b.time, now) {
        MaintainedBucket(b.time, now, k);
      }
      assert HasBlocks(st', k) <==> HasBlocks(st, k);
      forall from {
        BlobDeletedForSender(st, i, now, from);
      }
    }
  }

  /** The deleted blob's own bucket, sender by sender. */
  lemma BlobDeletedForSender(st: Store, i: nat, now: int, from: string)
    requires i < |st.blobs| && Maintained(st.blobs[i].time, now)
    ensures var st', k := BlobDeleted(st, i, now), Floor(st.blobs[i].time, BUCKET);
      && (from == st.blobs[i].from ==>
            ((k, from) in st'.blobRollups <==> HasBlobs(st', k, from)) &&
            ((k, from) in st'.blobRollups ==>
               st'.blobRollups[(k, from)] == BlobBucket(st'.blobs, BUCKET, k, from)))
      && (from != st.blobs[i].from ==>
            (HasBlobs(st', k, from) <==> HasBlobs(st, k, from)) &&
            BlobBucket(st'.blobs, BUCKET, k, from) == BlobBucket(st.blobs, BUCKET, k, from) &&
            ((k, from) in st'.blobRollups <==> (k, from) in st.blobRollups) &&
            ((k, from) in st.blobRollups ==> st'.blobRollups[(k, from)] == st.blobRollups[(k, from)]))
  {
    var b := st.blobs[i];
    var removed := st.(blobs := Without(st.blobs, i));
    BlobsRefreshedAt(removed, Floor(b.time, BUCKET), b.from, Floor(b.time, BUCKET), from);
    if from != b.from {
      BlobRemovedElsewhere(st, i, Floor(b.time, BUCKET), from);
    }
  }

  lemma BlockRemovedElsewhere(st: Store, i: nat, k: int)
    requires i < |st.metrics| && Floor(st.metrics[i].time, BUCKET) != k
    ensures var st' := st.(metrics := Without(st.metrics, i));
      && (HasBlocks(st', k) <==> HasBlocks(st, k))
      && FeeBucket(st'.metrics, BUCKET, k) == FeeBucket(st.metrics, BUCKET, k)
  {
    var p := BlocksBehind(BUCKET, k);
    WithoutElements(st.metrics, i);
    SumWithout(st.metrics, i, p, BASE_FEE);
    SumWithout(st.metrics, i, p, FEE_RECORDED);
    PickedWithout(st.metrics, i, p);
    if HasBlocks(st, k) {
      var x :| x in st.metrics && Floor(x.time, BUCKET) == k;
      assert x in Without(st.metrics, i);
    }
  }

  lemma BlockDeletedElsewhere(st: Store, i: nat, now: int, k: int)
    requires i < |st.metrics| && Floor(st.metrics[i].time, BUCKET) != k
    ensures SameAt(st, BlockDeleted(st, i, now), k)
  {
    var st' := BlockDeleted(st, i, now);
    BlockRemovedElsewhere(st, i, k);
    assert HasBlocks(st', k) <==> HasBlocks(st.(metrics := Without(st.metrics, i)), k);
    assert forall from :: HasBlobs(st', k, from) <==> HasBlobs(st, k, from);
  }

  lemma BlockDeletedAt(st: Store, i: nat, now: int, k: int)
    requires i < |st.metrics| && (k >= now - FINE_RETENTION_SECONDS || Maintained(st.metrics[i].time, now))
    ensures AsGoodAt(st, BlockDeleted(st, i, now), k)
  {
    var m := st.metrics[i];
    var st' := BlockDeleted(st, i, now);
    if Floor(m.time, BUCKET) != k {
      BlockDeletedElsewhere(st, i, now, k);
      SameIsAsExact(st, st', k);
    } else {
      if !Maintained(m.time, now) {
        MaintainedBucket(m.time, now, k);
      }
      FeesRefreshedAt(st.(metrics := Without(st.metrics, i)), k, k);
      assert forall from :: HasBlobs(st', k, from) <==> HasBlobs(st, k, from);
    }
  }
}
