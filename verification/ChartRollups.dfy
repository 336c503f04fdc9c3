/**
 The cost-comparison chart, computed twice: by scanning raw blobs and block metrics, and by
 regrouping pre-aggregated rollup rows into display buckets. The two must agree point by
 point for every accepted request, which rests on the alignment the request parser
 establishes and on nested bucket arithmetic. Times are whole seconds since the Unix epoch.
 */
module ChartRollups {
  import opened Common
  import opened Aggregation

  // ---------- requests ----------

  const MAX_CHART_POINT_LIMIT := 1000
  const APPROX_BLOCK_SECONDS := 12
  const ROLLUP_MIN_BUCKET_SECONDS := 3600
  const FINE_BUCKET_SECONDS := 60
  const FINE_RETENTION_SECONDS := 172800
  const CALLDATA_GAS_PER_BYTE := 16

  datatype Granularity = Block | Minute | Hour | Day

  datatype ChartRequest = ChartRequest(
    range: string, granularity: Granularity, bucketSeconds: int, startTime: Option<int>, endTime: int)

  datatype RequestError =
    | InvalidRange
    | InvalidGranularity
    | AllOnlyByDay
    | BlockNotForAll
    | TooCoarse
    | TooManyPoints

  datatype Parsed = Accepted(request: ChartRequest) | Rejected(error: RequestError)

  /** None for the unbounded range. */
  function RangeSeconds(range: string): Option<Option<int>> {
    if range == "all" then Some(None)
    else if range == "1h" then Some(Some(3600))
    else if range == "24h" then Some(Some(86400))
    else if range == "7d" then Some(Some(604800))
    else if range == "30d" then Some(Some(2592000))
    else None
  }

  function AutoGranularity(range: string): Option<(Granularity, int)> {
    if range == "1h" then Some((Minute, 60))
    else if range == "24h" then Some((Minute, 300))
    else if range == "7d" then Some((Hour, 3600))
    else if range == "30d" then Some((Hour, 21600))
    else if range == "all" then Some((Day, 86400))
    else None
  }

  function ResolveGranularity(range: string, granularity: string): Option<(Granularity, int)> {
    if granularity == "auto" then AutoGranularity(range)
    else if granularity == "block" then Some((Block, APPROX_BLOCK_SECONDS))
    else if granularity == "minute" then Some((Minute, 60))
    else if granularity == "hour" then Some((Hour, 3600))
    else if granularity == "day" then Some((Day, 86400))
    else None
  }

  /** Seconds between Go's zero time, 1 January of year 1, and the Unix epoch. */
  const ZERO_TIME_TO_EPOCH := 62135596800
  const SECONDS_PER_DAY := 86400

  /** time.Truncate: down to a multiple of `size` since the zero time. */
  function Truncate(t: int, size: int): int
    requires size > 0
  {
    t - (t + ZERO_TIME_TO_EPOCH) % size
  }

  function AlignChartEnd(now: int, bucketSeconds: int): int {
    if bucketSeconds <= 0 then now else Truncate(now, bucketSeconds) + bucketSeconds
  }

  function CeilDiv(a: int, b: int): int
    requires b > 0
  {
    (a + b - 1) / b
  }

  /** `range` and `granularity` are the trimmed, lower-cased query values; empty ones take the defaults. */
  function ParseChartRequest(range: string, granularity: string, pointLimit: int, now: int): Parsed {
    var range := if range == "" then "24h" else range;
    match RangeSeconds(range)
    case None => Rejected(InvalidRange)
    case Some(duration) =>
      if range == "all" && granularity !in {"", "auto", "day"} then Rejected(AllOnlyByDay)
      else
        var granularity := if granularity == "" then "auto" else granularity;
        match ResolveGranularity(range, granularity)
        case None => Rejected(InvalidGranularity)
        case Some((g, bucket)) =>
          if g == Block && duration.None? then Rejected(BlockNotForAll)
          else if duration.Some? && g != Block && bucket > duration.value then Rejected(TooCoarse)
          else if duration.Some? && g == Block then
            if CeilDiv(duration.value, APPROX_BLOCK_SECONDS) > pointLimit then Rejected(TooManyPoints)
            else Accepted(ChartRequest(range, g, bucket, Some(now - duration.value), now))
          else if duration.Some? then
            var end := AlignChartEnd(now, bucket);
            if CeilDiv(duration.value, bucket) > pointLimit then Rejected(TooManyPoints)
            else Accepted(ChartRequest(range, g, bucket, Some(end - duration.value), end))
          else Accepted(ChartRequest(range, g, bucket, None, AlignChartEnd(now, bucket)))
  }

  /** A request for a bounded range in time buckets. */
  ghost predicate BoundedTime(r: ChartRequest) {
    r.granularity != Block && r.startTime.Some?
  }

  ghost predicate WellAligned(r: ChartRequest) {
    && BoundedTime(r)
    && r.bucketSeconds > 0
    && Aligned(r.startTime.value, r.bucketSeconds) && Aligned(r.endTime, r.bucketSeconds)
    && r.startTime.value < r.endTime
  }

  /** A bucket that divides a day is truncated since the zero time as it is since the epoch. */
  lemma TruncateIsFloor(t: int, size: int)
    requires size > 0 && SECONDS_PER_DAY % size == 0
    ensures Truncate(t, size) == Floor(t, size)
  {
    var days, perDay := ZERO_TIME_TO_EPOCH / SECONDS_PER_DAY, SECONDS_PER_DAY / size;
    assert ZERO_TIME_TO_EPOCH == days * SECONDS_PER_DAY && SECONDS_PER_DAY == perDay * size;
    assert days * (perDay * size) == (days * perDay) * size;
    var q, r := t / size, t % size;
    assert t == q * size + r;
    assert t + ZERO_TIME_TO_EPOCH == (q + days * perDay) * size + r;
    UniqueQuotient(q + days * perDay, r, size);
  }

  /** The bounded durations and the bucket sizes that can be combined with them. */
  predicate Combinable(duration: int, bucket: int) {
    || (bucket == 60 && duration in {3600, 86400, 604800, 2592000})
    || (bucket == 300 && duration == 86400)
    || (bucket == 3600 && duration in {3600, 86400, 604800, 2592000})
    || (bucket == 21600 && duration == 2592000)
    || (bucket == 86400 && duration in {86400, 604800, 2592000})
  }

  lemma CombinableDivides(duration: int, bucket: int)
    requires Combinable(duration, bucket)
    ensures duration > 0 && bucket > 0 && duration % bucket == 0 && CeilDiv(duration, bucket) == duration / bucket
    ensures bucket % FINE_BUCKET_SECONDS == 0
  {
  }

  lemma AcceptedShape(range: string, granularity: string, pointLimit: int, now: int)
    ensures var parsed := ParseChartRequest(range, granularity, pointLimit, now);
      parsed.Accepted? && BoundedTime(parsed.request) ==>
        var r := parsed.request;
        var duration := r.endTime - r.startTime.value;
        && Combinable(duration, r.bucketSeconds)
        && r.endTime == AlignChartEnd(now, r.bucketSeconds)
        && CeilDiv(duration, r.bucketSeconds) <= pointLimit
  {
  }

  // What the query words mean, apart from the parser

  const MINUTE := 60
  const HOUR := 60 * MINUTE
  const DAY := 24 * HOUR

  predicate NamedSpan(range: string, span: int) {
    || (range == "1h" && span == HOUR)
    || (range == "24h" && span == DAY)
    || (range == "7d" && span == 7 * DAY)
    || (range == "30d" && span == 30 * DAY)
  }

  /** What the automatic choice is for a range, and what the other words say themselves. */
  predicate NamedBucket(range: string, granularity: string, g: Granularity, size: int) {
    || (granularity in {"", "auto"} &&
        (|| (range == "1h" && g == Minute && size == MINUTE)
         || (range == "24h" && g == Minute && size == 5 * MINUTE)
         || (range == "7d" && g == Hour && size == HOUR)
         || (range == "30d" && g == Hour && size == 6 * HOUR)
         || (range == "all" && g == Day && size == DAY)))
    || (granularity == "minute" && g == Minute && size == MINUTE)
    || (granularity == "hour" && g == Hour && size == HOUR)
    || (granularity == "day" && g == Day && size == DAY)
    || (granularity == "block" && g == Block && size == 12)
  }

  /** The request ends with the bucket that holds the present. */
  predicate EndsNow(r: ChartRequest, now: int) {
    r.bucketSeconds > 0 && Aligned(r.endTime, r.bucketSeconds) && r.endTime - r.bucketSeconds <= now < r.endTime
  }

  predicate SaysBounded(r: ChartRequest, pointLimit: int, now: int) {
    r.startTime.Some? &&
    (var span := r.endTime - r.startTime.value;
     && NamedSpan(r.range, span)
     && span <= pointLimit * r.bucketSeconds
     && (if r.granularity == Block then r.endTime == now else r.bucketSeconds <= span && EndsNow(r, now)))
  }

  predicate SaysAll(r: ChartRequest, now: int) {
    r.range == "all" && r.granularity == Day && r.startTime.None? && EndsNow(r, now)
  }

  lemma EndIsUnique(now: int, size: int, end: int)
    requires size > 0 && SECONDS_PER_DAY % size == 0
    ensures Aligned(end, size) && end - size <= now < end <==> end == AlignChartEnd(now, size)
  {
    TruncateIsFloor(now, size);
    FloorFacts(now, size);
    ShiftAligned(Floor(now, size), 1, size);
    if Aligned(end, size) && end - size <= now < end {
      ShiftAligned(end, -1, size);
      AlignedBound(end - size, now, size);
      AlignedBound(end, now, size);
      AlignedApart(end, Floor(now, size) + size, size);
    }
  }

  /** Aligned times less than a bucket apart are the same. */
  lemma AlignedApart(a: int, b: int, size: int)
    requires size > 0 && Aligned(a, size) && Aligned(b, size) && -size < a - b < size
    ensures a == b
  {
    var x, y := a / size, b / size;
    assert a == x * size && b == y * size;
    if x < y {
      Multiply(x + 1, y, size);
    } else if y < x {
      Multiply(y + 1, x, size);
    }
  }

  lemma SpanIsNamed(range: string, span: int)
    ensures RangeSeconds(range) == Some(Some(span)) <==> NamedSpan(range, span)
    ensures RangeSeconds(range) == Some(None) <==> range == "all"
    ensures RangeSeconds(range).None? <==> range !in {"1h", "24h", "7d", "30d", "all"}
  {
  }

  lemma BucketIsNamed(range: string, granularity: string, g: Granularity, size: int)
    ensures ResolveGranularity(range, if granularity == "" then "auto" else granularity) == Some((g, size)) <==>
      NamedBucket(range, granularity, g, size)
    ensures NamedBucket(range, granularity, g, size) ==> size > 0 && SECONDS_PER_DAY % size == 0
    ensures NamedBucket(range, granularity, g, size) && g == Block ==> size == APPROX_BLOCK_SECONDS
    ensures NamedBucket(range, granularity, g, size) && range == "all" ==>
      (granularity in {"", "auto", "day"} <==> g == Day)
  {
  }

  lemma GranularityIsKnown(range: string, granularity: string)
    requires range in {"1h", "24h", "7d", "30d", "all"}
    ensures ResolveGranularity(range, if granularity == "" then "auto" else granularity).None? <==>
      granularity !in {"", "auto", "block", "minute", "hour", "day"}
  {
  }

  lemma PointsFit(span: int, size: int, pointLimit: int)
    requires size > 0
    ensures CeilDiv(span, size) <= pointLimit <==> span <= pointLimit * size
  {
    var points := CeilDiv(span, size);
    assert (points - 1) * size < span <= points * size by {
      assert span + size - 1 == points * size + (span + size - 1) % size;
    }
    if points <= pointLimit {
      Multiply(points, pointLimit, size);
    } else {
      Multiply(pointLimit, points - 1, size);
    }
  }

  /** The words of the query say this request. */
  predicate Says(range: string, granularity: string, pointLimit: int, now: int, r: ChartRequest) {
    && r.range == (if range == "" then "24h" else range)
    && NamedBucket(r.range, granularity, r.granularity, r.bucketSeconds)
    && (SaysAll(r, now) || SaysBounded(r, pointLimit, now))
  }

  lemma AcceptedAllSays(range: string, granularity: string, pointLimit: int, now: int, r: ChartRequest)
    requires ParseChartRequest(range, granularity, pointLimit, now) == Accepted(r) && r.startTime.None?
    ensures Says(range, granularity, pointLimit, now, r)
  {
    SpanIsNamed(r.range, 0);
    BucketIsNamed(r.range, granularity, r.granularity, r.bucketSeconds);
    EndIsUnique(now, r.bucketSeconds, r.endTime);
  }

  lemma AcceptedBoundedSays(range: string, granularity: string, pointLimit: int, now: int, r: ChartRequest)
    requires ParseChartRequest(range, granularity, pointLimit, now) == Accepted(r) && r.startTime.Some?
    ensures Says(range, granularity, pointLimit, now, r)
  {
    var span := r.endTime - r.startTime.value;
    BucketIsNamed(r.range, granularity, r.granularity, r.bucketSeconds);
    SpanIsNamed(r.range, span);
    PointsFit(span, r.bucketSeconds, pointLimit);
    if r.granularity != Block {
      EndIsUnique(now, r.bucketSeconds, r.endTime);
    }
  }

  lemma SaidIsAccepted(range: string, granularity: string, pointLimit: int, now: int, r: ChartRequest)
    requires Says(range, granularity, pointLimit, now, r)
    ensures ParseChartRequest(range, granularity, pointLimit, now) == Accepted(r)
  {
    BucketIsNamed(r.range, granularity, r.granularity, r.bucketSeconds);
    EndIsUnique(now, r.bucketSeconds, r.endTime);
    if SaysBounded(r, pointLimit, now) {
      SpanIsNamed(r.range, r.endTime - r.startTime.value);
      PointsFit(r.endTime - r.startTime.value, r.bucketSeconds, pointLimit);
    } else {
      SpanIsNamed(r.range, 0);
    }
  }

  /** MAIN RESULT. A request is accepted, and as what, exactly when its words say so: the span its range names, in
      buckets as its granularity names them, no longer than the span, at most as many of them as allowed, the last
      one holding the present; without a range the last day, without a granularity the automatic choice. */
  lemma AcceptedIff(range: string, granularity: string, pointLimit: int, now: int, r: ChartRequest)
    ensures ParseChartRequest(range, granularity, pointLimit, now) == Accepted(r) <==>
      Says(range, granularity, pointLimit, now, r)
  {
    if Says(range, granularity, pointLimit, now, r) {
      SaidIsAccepted(range, granularity, pointLimit, now, r);
    }
    if ParseChartRequest(range, granularity, pointLimit, now) == Accepted(r) {
      if r.startTime.None? {
        AcceptedAllSays(range, granularity, pointLimit, now, r);
      } else {
        AcceptedBoundedSays(range, granularity, pointLimit, now, r);
      }
    }
  }

  /** What each rejection means: no such range; a finer view of everything; no such granularity; a bucket longer
      than the span; more buckets than allowed. The first that applies is reported. */
  lemma RejectedIff(range: string, granularity: string, pointLimit: int, now: int)
    ensures var parsed := ParseChartRequest(range, granularity, pointLimit, now);
      var name := if range == "" then "24h" else range;
      && (parsed == Rejected(InvalidRange) <==> name !in {"1h", "24h", "7d", "30d", "all"})
      && (parsed == Rejected(AllOnlyByDay) <==> name == "all" && granularity !in {"", "auto", "day"})
      && (parsed == Rejected(InvalidGranularity) <==>
            name in {"1h", "24h", "7d", "30d"} &&
            granularity !in {"", "auto", "block", "minute", "hour", "day"})
      && parsed != Rejected(BlockNotForAll)
  {
    var name := if range == "" then "24h" else range;
    SpanIsNamed(name, 0);
    if name in {"1h", "24h", "7d", "30d", "all"} {
      GranularityIsKnown(name, granularity);
      var resolved := ResolveGranularity(name, if granularity == "" then "auto" else granularity);
      if resolved.Some? {
        BucketIsNamed(name, granularity, resolved.value.0, resolved.value.1);
      }
    }
  }

  lemma TooCoarseOrTooMany(
    range: string, granularity: string, pointLimit: int, now: int, span: int, g: Granularity, size: int)
    requires NamedSpan(if range == "" then "24h" else range, span)
    requires NamedBucket(if range == "" then "24h" else range, granularity, g, size)
    ensures var parsed := ParseChartRequest(range, granularity, pointLimit, now);
      && (parsed == Rejected(TooCoarse) <==> g != Block && size > span)
      && (parsed == Rejected(TooManyPoints) <==> (g == Block || size <= span) && span > pointLimit * size)
  {
    var name := if range == "" then "24h" else range;
    SpanIsNamed(name, span);
    BucketIsNamed(name, granularity, g, size);
    PointsFit(span, size, pointLimit);
  }

  lemma AlignedWindow(now: int, duration: int, bucket: int)
    requires Combinable(duration, bucket)
    ensures var end := AlignChartEnd(now, bucket);
      bucket > 0 && Aligned(end, bucket) && Aligned(end - duration, bucket) && end - bucket <= now < end
  {
    TruncateIsFloor(now, bucket);
    FloorFacts(now, bucket);
    CombinableDivides(duration, bucket);
    ShiftAligned(Floor(now, bucket), 1, bucket);
    ShiftAligned(Floor(now, bucket), 1 - duration / bucket, bucket);
    assert bucket * (duration / bucket) == duration;
  }

  lemma ShiftAligned(k: int, n: int, size: int)
    requires size > 0 && Aligned(k, size)
    ensures Aligned(k + n * size, size)
  {
    assert k + n * size == (k / size + n) * size;
    MultipleIsAligned(k / size + n, size);
  }

  /** Every accepted bounded time request is aligned on both ends, contains the present in its last bucket and
      asks for no more points than allowed. */
  lemma AcceptedIsAligned(range: string, granularity: string, pointLimit: int, now: int)
    ensures var parsed := ParseChartRequest(range, granularity, pointLimit, now);
      parsed.Accepted? && BoundedTime(parsed.request) ==>
        var r := parsed.request;
        && WellAligned(r)
        && r.endTime - r.bucketSeconds <= now < r.endTime
        && (r.endTime - r.startTime.value) / r.bucketSeconds <= pointLimit
        && r.bucketSeconds % FINE_BUCKET_SECONDS == 0
  {
    AcceptedShape(range, granularity, pointLimit, now);
    var parsed := ParseChartRequest(range, granularity, pointLimit, now);
    if parsed.Accepted? && BoundedTime(parsed.request) {
      var r := parsed.request;
      CombinableDivides(r.endTime - r.startTime.value, r.bucketSeconds);
      AlignedWindow(now, r.endTime - r.startTime.value, r.bucketSeconds);
    }
  }

  /** The point limit keeps sub-hour buckets to ranges of at most a day, so for a day after it was made no such
      request starts before the 48 hours for which fine buckets are kept. */
  lemma SubHourFitsRetention(range: string, granularity: string, pointLimit: int, asked: int)
    requires pointLimit <= MAX_CHART_POINT_LIMIT
    ensures var parsed := ParseChartRequest(range, granularity, pointLimit, asked);
      parsed.Accepted? && BoundedTime(parsed.request) && parsed.request.bucketSeconds < ROLLUP_MIN_BUCKET_SECONDS ==>
        var r := parsed.request;
        && r.endTime - r.startTime.value <= SECONDS_PER_DAY
        && r.startTime.value > asked + SECONDS_PER_DAY - FINE_RETENTION_SECONDS
  {
    AcceptedShape(range, granularity, pointLimit, asked);
    AcceptedIsAligned(range, granularity, pointLimit, asked);
  }

  /** Which stored bucket size serves the request; fine rows only once their coverage reaches the start. */
  function SourceBucket(r: ChartRequest, fineCoverageStart: Option<int>): Option<int> {
    if r.granularity == Block then None
    else if r.bucketSeconds >= ROLLUP_MIN_BUCKET_SECONDS then Some(r.bucketSeconds)
    else if r.bucketSeconds <= 0 || r.bucketSeconds % FINE_BUCKET_SECONDS != 0 || r.startTime.None? then None
    else if fineCoverageStart.None? || fineCoverageStart.value > r.startTime.value then None
    else Some(FINE_BUCKET_SECONDS)
  }

  /** The sizes of which the triggers keep rows. */
  predicate Stored(size: int) {
    size in {60, 3600, 21600, 86400}
  }

  /** An accepted request for time buckets is served by rows that are stored and that fit its buckets: rows of its
      own size from an hour on, rows of a minute below, the latter exactly when it is bounded and they reach back to
      its start. By blocks nothing is stored. */
  lemma ServedIff(range: string, granularity: string, pointLimit: int, now: int, coverage: Option<int>, source: int)
    ensures var parsed := ParseChartRequest(range, granularity, pointLimit, now);
      parsed.Accepted? ==>
        var r := parsed.request;
        && (SourceBucket(r, coverage) == Some(source) <==>
              && r.granularity != Block
              && (if r.bucketSeconds >= HOUR then source == r.bucketSeconds
                  else source == MINUTE && r.startTime.Some? && coverage.Some? && coverage.value <= r.startTime.value))
        && (SourceBucket(r, coverage) == Some(source) ==> Stored(source) && r.bucketSeconds % source == 0)
  {
  }

  // ---------- tables ----------

  datatype BlobRow = BlobRow(time: int, from: string, size: int, gas: int, cost: int, baseFee: int)

  /** `others` are the columns the cost chart does not read. */
  datatype MetricsRow = MetricsRow(number: int, time: int, baseFee: int, others: seq<int>)

  datatype BlobAggregate = BlobAggregate(count: int, bytes: int, gas: int, cost: int, sizeFee: int)

  /** `rows` stands for the stored columns that the cost chart does not read: the number of blocks, the first and
      the last of them, further sums, and a median and a percentile are all computed from these rows. */
  datatype FeeAggregate = FeeAggregate(sumBaseFee: int, feeBlocks: int, rows: multiset<MetricsRow>)

  datatype BlobRollup = BlobRollup(bucketSeconds: int, start: int, from: string, value: BlobAggregate)

  datatype MetricsRollup = MetricsRollup(bucketSeconds: int, start: int, value: FeeAggregate)

  // ---------- selections and columns ----------

  predicate InRange(t: int, lo: int, hi: int) {
    lo <= t < hi
  }

  /** Rows of the range [lo, hi) that fall into display bucket `bucket`. */
  function BlobsShown(lo: int, hi: int, size: int, bucket: int): BlobRow -> bool
    requires size > 0
  {
    (b: BlobRow) => InRange(b.time, lo, hi) && Floor(b.time, size) == bucket
  }

  function BlocksShown(lo: int, hi: int, size: int, bucket: int): MetricsRow -> bool
    requires size > 0
  {
    (m: MetricsRow) => InRange(m.time, lo, hi) && Floor(m.time, size) == bucket
  }

  /** Rows behind one stored rollup row. */
  function BlobsBehind(size: int, start: int, from: string): BlobRow -> bool
    requires size > 0
  {
    (b: BlobRow) => Floor(b.time, size) == start && b.from == from
  }

  function BlocksBehind(size: int, start: int): MetricsRow -> bool
    requires size > 0
  {
    (m: MetricsRow) => Floor(m.time, size) == start
  }

  const ONE: BlobRow -> int := (b: BlobRow) => 1
  const SIZE: BlobRow -> int := (b: BlobRow) => b.size
  const GAS: BlobRow -> int := (b: BlobRow) => b.gas
  const COST: BlobRow -> int := (b: BlobRow) => b.cost
  const SIZE_FEE: BlobRow -> int := (b: BlobRow) => b.size * b.baseFee
  const BASE_FEE: MetricsRow -> int := (m: MetricsRow) => m.baseFee
  const FEE_RECORDED: MetricsRow -> int := (m: MetricsRow) => if m.baseFee > 0 then 1 else 0

  // ---------- aggregation of raw rows ----------

  ghost function BlobSums(blobs: seq<BlobRow>, p: BlobRow -> bool): BlobAggregate {
    BlobAggregate(
      Sum(blobs, p, ONE), Sum(blobs, p, SIZE), Sum(blobs, p, GAS), Sum(blobs, p, COST), Sum(blobs, p, SIZE_FEE))
  }

  /** Only blocks with a positive recorded base fee count towards the average. */
  ghost function FeeSums(metrics: seq<MetricsRow>, p: MetricsRow -> bool): FeeAggregate {
    FeeAggregate(Sum(metrics, p, BASE_FEE), Sum(metrics, p, FEE_RECORDED), Picked(metrics, p))
  }

  /** The from-scratch aggregate of one stored blob bucket. */
  ghost function BlobBucket(blobs: seq<BlobRow>, size: int, start: int, from: string): BlobAggregate
    requires size > 0
  {
    BlobSums(blobs, BlobsBehind(size, start, from))
  }

  ghost function FeeBucket(metrics: seq<MetricsRow>, size: int, start: int): FeeAggregate
    requires size > 0
  {
    FeeSums(metrics, BlocksBehind(size, start))
  }

  // ---------- chart points ----------

  datatype Point = Point(
    time: int, blobCount: int, blobBytes: int, blobCost: int, calldataCost: int, averageBaseFee: Option<int>)

  /** ROUND(sum / count): half away from zero. */
  function RoundedQuotient(sum: int, count: int): int
    requires count > 0
  {
    if sum >= 0 then (2 * sum + count) / (2 * count) else -((2 * -sum + count) / (2 * count))
  }

  /** Prices a bucket by its average execution fee, or by the blob fee proxy when no block recorded one. */
  function Priced(
    time: int, count: int, bytes: int, cost: int, proxyCost: int, sumBaseFee: int, feeBlocks: int): Point
  {
    if feeBlocks > 0 then
      var average := RoundedQuotient(sumBaseFee, feeBlocks);
      Point(time, count, bytes, cost, bytes * CALLDATA_GAS_PER_BYTE * average, Some(average))
    else Point(time, count, bytes, cost, proxyCost, None)
  }

  /** One point of the raw query. */
  ghost function RawPoint(
    blobs: seq<BlobRow>, metrics: seq<MetricsRow>, lo: int, hi: int, size: int, bucket: int): Point
    requires size > 0
  {
    var p := BlobsShown(lo, hi, size, bucket);
    var q := BlocksShown(lo, hi, size, bucket);
    Priced(
      bucket, Sum(blobs, p, ONE), Sum(blobs, p, SIZE), Sum(blobs, p, COST),
      Sum(blobs, p, (b: BlobRow) => b.size * CALLDATA_GAS_PER_BYTE * b.baseFee),
      Sum(metrics, q, BASE_FEE), Sum(metrics, q, FEE_RECORDED))
  }

  /** The bucket [bucket, bucket + size), cut to the range [lo, hi). */
  predicate Within(t: int, lo: int, hi: int, size: int, bucket: int) {
    lo <= t < hi && bucket <= t < bucket + size
  }

  /** `q` is the whole number closest to sum / count, the one further from zero when two are equally close. */
  predicate IsNearest(q: int, sum: int, count: int) {
    var twice := 2 * (q * count - sum);
    -count <= twice <= count && (twice == count ==> sum >= 0) && (twice == -count ==> sum < 0)
  }

  lemma RoundedIsNearest(sum: int, count: int)
    requires count > 0
    ensures IsNearest(RoundedQuotient(sum, count), sum, count)
  {
    var x := if sum >= 0 then sum else -sum;
    var q := (2 * x + count) / (2 * count);
    assert 2 * x + count == q * (2 * count) + (2 * x + count) % (2 * count);
    assert q * (2 * count) == 2 * (q * count);
    assert (-q) * count == -(q * count);
  }

  lemma FloorIffWithin(t: int, size: int, bucket: int)
    requires size > 0 && Aligned(bucket, size)
    ensures Floor(t, size) == bucket <==> bucket <= t < bucket + size
  {
    FloorFacts(t, size);
    if bucket <= t < bucket + size {
      AlignedBound(bucket, t, size);
      AlignedApart(Floor(t, size), bucket, size);
    }
  }

  function BlobsWithin(lo: int, hi: int, size: int, bucket: int): BlobRow -> bool {
    (b: BlobRow) => Within(b.time, lo, hi, size, bucket)
  }

  function BlocksWithin(lo: int, hi: int, size: int, bucket: int): MetricsRow -> bool {
    (m: MetricsRow) => Within(m.time, lo, hi, size, bucket)
  }

  /** Blocks within the bucket that recorded an execution fee. */
  function PricedWithin(lo: int, hi: int, size: int, bucket: int): MetricsRow -> bool {
    (m: MetricsRow) => Within(m.time, lo, hi, size, bucket) && m.baseFee > 0
  }

  const CALLDATA_FEE: BlobRow -> int := (b: BlobRow) => b.size * 16 * b.baseFee

  /** How many of the rows are selected. */
  ghost function CountOf<R>(rows: seq<R>, p: R -> bool): nat {
    |set i: nat | i < |rows| && p(rows[i])|
  }

  /** What a chart point says, apart from the queries: how many blobs the bucket holds, how many bytes, what they
      cost, and what the same bytes would have cost as calldata, at 16 gas a byte and the average execution fee of
      the blocks that recorded one; when none did, at each blob's own fee. */
  lemma RawPointMeans(
    blobs: seq<BlobRow>, metrics: seq<MetricsRow>, lo: int, hi: int, size: int, bucket: int)
    requires size > 0 && Aligned(bucket, size)
    ensures var point := RawPoint(blobs, metrics, lo, hi, size, bucket);
      var within, priced := BlobsWithin(lo, hi, size, bucket), PricedWithin(lo, hi, size, bucket);
      && point.time == bucket
      && point.blobCount == CountOf(blobs, within)
      && point.blobBytes == Sum(blobs, within, (b: BlobRow) => b.size)
      && point.blobCost == Sum(blobs, within, (b: BlobRow) => b.cost)
      && (point.averageBaseFee.None? <==> CountOf(metrics, priced) == 0)
      && (match point.averageBaseFee
          case None => point.calldataCost == Sum(blobs, within, CALLDATA_FEE)
          case Some(average) =>
            && point.calldataCost == point.blobBytes * 16 * average
            && IsNearest(average, Sum(metrics, BlocksWithin(lo, hi, size, bucket), (m: MetricsRow) => m.baseFee),
                 CountOf(metrics, priced)))
  {
    var within, shown := BlobsWithin(lo, hi, size, bucket), BlobsShown(lo, hi, size, bucket);
    forall b: BlobRow ensures shown(b) == within(b) {
      FloorIffWithin(b.time, size, bucket);
    }
    SumCongruent(blobs, shown, within, ONE, ONE);
    SumOfOnes(blobs, within, ONE);
    SumCongruent(blobs, shown, within, SIZE, (b: BlobRow) => b.size);
    SumCongruent(blobs, shown, within, COST, (b: BlobRow) => b.cost);
    SumCongruent(blobs, shown, within, (b: BlobRow) => b.size * CALLDATA_GAS_PER_BYTE * b.baseFee, CALLDATA_FEE);
    FeesMean(metrics, lo, hi, size, bucket);
    var sum := Sum(metrics, BlocksWithin(lo, hi, size, bucket), (m: MetricsRow) => m.baseFee);
    var blocks := BlocksWithin(lo, hi, size, bucket);
    SumCongruent(metrics, blocks, blocks, BASE_FEE, (m: MetricsRow) => m.baseFee);
    var count := CountOf(metrics, PricedWithin(lo, hi, size, bucket));
    if count > 0 {
      RoundedIsNearest(sum, count);
    }
  }

  lemma FeesMean(metrics: seq<MetricsRow>, lo: int, hi: int, size: int, bucket: int)
    requires size > 0 && Aligned(bucket, size)
    ensures var shown := BlocksShown(lo, hi, size, bucket);
      && Sum(metrics, shown, BASE_FEE) == Sum(metrics, BlocksWithin(lo, hi, size, bucket), BASE_FEE)
      && Sum(metrics, shown, FEE_RECORDED) == CountOf(metrics, PricedWithin(lo, hi, size, bucket))
  {
    var within, shown := BlocksWithin(lo, hi, size, bucket), BlocksShown(lo, hi, size, bucket);
    var priced, one := PricedWithin(lo, hi, size, bucket), (m: MetricsRow) => 1;
    forall m: MetricsRow ensures shown(m) == within(m) {
      FloorIffWithin(m.time, size, bucket);
    }
    SumCongruent(metrics, shown, within, BASE_FEE, BASE_FEE);
    SumCongruent(metrics, shown, within, FEE_RECORDED, FEE_RECORDED);
    OnesAreRecorded(metrics, within, priced, one);
    SumOfOnes(metrics, priced, one);
  }

  lemma {:induction false} OnesAreRecorded(
    metrics: seq<MetricsRow>, within: MetricsRow -> bool, priced: MetricsRow -> bool, one: MetricsRow -> int)
    requires forall m :: priced(m) <==> within(m) && m.baseFee > 0
    requires forall m :: one(m) == 1
    ensures Sum(metrics, within, FEE_RECORDED) == Sum(metrics, priced, one)
  {
    if metrics != [] {
      OnesAreRecorded(metrics[..|metrics| - 1], within, priced, one);
    }
  }

  /** Whether a rollup row falls into display bucket `bucket` of the range, reading source size `source`. */
  predicate Selected(bucketSeconds: int, start: int, source: int, lo: int, hi: int, size: int, bucket: int)
    requires size > 0
  {
    bucketSeconds == source && InRange(start, lo, hi) && Floor(start, size) == bucket
  }

  function BlobRollupsShown(source: int, lo: int, hi: int, size: int, bucket: int): BlobRollup -> bool
    requires size > 0
  {
    (r: BlobRollup) => Selected(r.bucketSeconds, r.start, source, lo, hi, size, bucket)
  }

  function FeeRollupsShown(source: int, lo: int, hi: int, size: int, bucket: int): MetricsRollup -> bool
    requires size > 0
  {
    (r: MetricsRollup) => Selected(r.bucketSeconds, r.start, source, lo, hi, size, bucket)
  }

  const ROLLED_COUNT: BlobRollup -> int := (r: BlobRollup) => r.value.count
  const ROLLED_BYTES: BlobRollup -> int := (r: BlobRollup) => r.value.bytes
  const ROLLED_COST: BlobRollup -> int := (r: BlobRollup) => r.value.cost
  const ROLLED_SIZE_FEE: BlobRollup -> int := (r: BlobRollup) => r.value.sizeFee
  const ROLLED_BASE_FEE: MetricsRollup -> int := (r: MetricsRollup) => r.value.sumBaseFee
  const ROLLED_FEE_BLOCKS: MetricsRollup -> int := (r: MetricsRollup) => r.value.feeBlocks

  /** One point of the rollup query: sums over the stored rows of the source bucket size. */
  ghost function RollupPoint(
    blobs: seq<BlobRollup>, metrics: seq<MetricsRollup>, source: int, lo: int, hi: int, size: int, bucket: int): Point
    requires size > 0
  {
    var p := BlobRollupsShown(source, lo, hi, size, bucket);
    var q := FeeRollupsShown(source, lo, hi, size, bucket);
    Priced(
      bucket, Sum(blobs, p, ROLLED_COUNT), Sum(blobs, p, ROLLED_BYTES), Sum(blobs, p, ROLLED_COST),
      CALLDATA_GAS_PER_BYTE * Sum(blobs, p, ROLLED_SIZE_FEE),
      Sum(metrics, q, ROLLED_BASE_FEE), Sum(metrics, q, ROLLED_FEE_BLOCKS))
  }

  /** generate_series(start, end - bucket, bucket) of an aligned request. */
  ghost function RawChart(r: ChartRequest, blobs: seq<BlobRow>, metrics: seq<MetricsRow>): seq<Point>
    requires WellAligned(r)
  {
    var lo := r.startTime.value;
    seq((r.endTime - lo) / r.bucketSeconds, i =>
      RawPoint(blobs, metrics, lo, r.endTime, r.bucketSeconds, lo + i * r.bucketSeconds))
  }

  ghost function RollupChart(
    r: ChartRequest, blobs: seq<BlobRollup>, metrics: seq<MetricsRollup>, source: int): seq<Point>
    requires WellAligned(r)
  {
    var lo := r.startTime.value;
    seq((r.endTime - lo) / r.bucketSeconds, i =>
      RollupPoint(blobs, metrics, source, lo, r.endTime, r.bucketSeconds, lo + i * r.bucketSeconds))
  }

  // ---------- what a stored bucket says ----------

  /** The blobs of one sender from `start` on and before `end`. */
  function SentBetween(start: int, end: int, from: string): BlobRow -> bool {
    (b: BlobRow) => start <= b.time < end && b.from == from
  }

  function RecordedBetween(start: int, end: int): MetricsRow -> bool {
    (m: MetricsRow) => start <= m.time < end && m.baseFee > 0
  }

  function Between(start: int, end: int): MetricsRow -> bool {
    (m: MetricsRow) => start <= m.time < end
  }

  /** A stored blob row counts and sums its sender's blobs of the bucket. */
  lemma BlobBucketMeans(blobs: seq<BlobRow>, size: int, start: int, from: string)
    requires size > 0 && Aligned(start, size)
    ensures var a, sent := BlobBucket(blobs, size, start, from), SentBetween(start, start + size, from);
      && a.count == CountOf(blobs, sent)
      && a.bytes == Sum(blobs, sent, (b: BlobRow) => b.size)
      && a.gas == Sum(blobs, sent, (b: BlobRow) => b.gas)
      && a.cost == Sum(blobs, sent, (b: BlobRow) => b.cost)
      && a.sizeFee == Sum(blobs, sent, (b: BlobRow) => b.size * b.baseFee)
  {
    var behind, sent := BlobsBehind(size, start, from), SentBetween(start, start + size, from);
    forall b: BlobRow ensures behind(b) == sent(b) {
      FloorIffWithin(b.time, size, start);
    }
    SumCongruent(blobs, behind, sent, ONE, ONE);
    SumOfOnes(blobs, sent, ONE);
    SumCongruent(blobs, behind, sent, SIZE, (b: BlobRow) => b.size);
    SumCongruent(blobs, behind, sent, GAS, (b: BlobRow) => b.gas);
    SumCongruent(blobs, behind, sent, COST, (b: BlobRow) => b.cost);
    SumCongruent(blobs, behind, sent, SIZE_FEE, (b: BlobRow) => b.size * b.baseFee);
  }

  /** A stored block row sums the execution fees of the bucket's blocks and counts those that recorded one; its
      other columns are computed from exactly those blocks. */
  lemma FeeBucketMeans(metrics: seq<MetricsRow>, size: int, start: int, m: MetricsRow)
    requires size > 0 && Aligned(start, size)
    ensures var a, end := FeeBucket(metrics, size, start), start + size;
      && a.sumBaseFee == Sum(metrics, Between(start, end), (x: MetricsRow) => x.baseFee)
      && a.feeBlocks == CountOf(metrics, RecordedBetween(start, end))
      && a.rows[m] == if start <= m.time < end then multiset(metrics)[m] else 0
  {
    var behind, between := BlocksBehind(size, start), Between(start, start + size);
    forall x: MetricsRow ensures behind(x) == between(x) {
      FloorIffWithin(x.time, size, start);
    }
    SumCongruent(metrics, behind, between, BASE_FEE, (x: MetricsRow) => x.baseFee);
    SumCongruent(metrics, behind, between, FEE_RECORDED, FEE_RECORDED);
    OnesAreRecorded(metrics, between, RecordedBetween(start, start + size), (x: MetricsRow) => 1);
    SumOfOnes(metrics, RecordedBetween(start, start + size), (x: MetricsRow) => 1);
    PickedCount(metrics, behind, m);
  }

  // ---------- nothing falls between the points of a chart ----------

  /** The blobs of the requested range before `end`. */
  function BlobsUntil(lo: int, end: int): BlobRow -> bool {
    (b: BlobRow) => lo <= b.time < end
  }

  ghost function Total(chart: seq<Point>, g: Point -> int): int {
    Sum(chart, (p: Point) => true, g)
  }

  /** The first `n` points together hold what the first `n` buckets of the range do. */
  lemma {:induction false} ChartTotals(
    r: ChartRequest, blobs: seq<BlobRow>, metrics: seq<MetricsRow>, n: nat, f: BlobRow -> int, g: Point -> int)
    requires WellAligned(r) && n <= |RawChart(r, blobs, metrics)|
    requires forall i :: 0 <= i < |RawChart(r, blobs, metrics)| ==>
      g(RawChart(r, blobs, metrics)[i]) ==
        Sum(blobs, BlobsWithin(r.startTime.value, r.endTime, r.bucketSeconds, BucketStart(r, i)), f)
    ensures Total(RawChart(r, blobs, metrics)[..n], g) ==
      Sum(blobs, BlobsUntil(r.startTime.value, BucketStart(r, n)), f)
  {
    var lo, chart := r.startTime.value, RawChart(r, blobs, metrics);
    if n == 0 {
      SumNone(blobs, BlobsUntil(lo, BucketStart(r, 0)), f);
    } else {
      ChartTotals(r, blobs, metrics, n - 1, f, g);
      assert chart[..n][..n - 1] == chart[..n - 1] && chart[..n][n - 1] == chart[n - 1];
      var bucket := BlobsWithin(lo, r.endTime, r.bucketSeconds, BucketStart(r, n - 1));
      NextBucket(r, n);
      SumSplit(blobs, BlobsUntil(lo, BucketStart(r, n - 1)), bucket, BlobsUntil(lo, BucketStart(r, n)), f);
    }
  }

  function BucketStart(r: ChartRequest, i: int): int
    requires r.startTime.Some?
  {
    r.startTime.value + i * r.bucketSeconds
  }

  lemma NextBucket(r: ChartRequest, n: nat)
    requires WellAligned(r) && 0 < n <= (r.endTime - r.startTime.value) / r.bucketSeconds
    ensures r.startTime.value <= BucketStart(r, n - 1)
    ensures BucketStart(r, n) == BucketStart(r, n - 1) + r.bucketSeconds && BucketStart(r, n) <= r.endTime
  {
    var span, size := r.endTime - r.startTime.value, r.bucketSeconds;
    Multiply(0, n - 1, size);
    Multiply(n, span / size, size);
    assert span / size * size <= span;
    assert n * size == (n - 1) * size + size;
  }

  /** MAIN RESULT. A chart starts at the start of its request, has one point per bucket, and accounts for every blob
      of the range: counts, bytes and costs of its points add up to those of the range. */
  lemma ChartConserves(r: ChartRequest, blobs: seq<BlobRow>, metrics: seq<MetricsRow>)
    requires WellAligned(r)
    ensures var chart := RawChart(r, blobs, metrics);
      var inRange := BlobsUntil(r.startTime.value, r.endTime);
      && |chart| * r.bucketSeconds == r.endTime - r.startTime.value
      && (forall i :: 0 <= i < |chart| ==> chart[i].time == r.startTime.value + i * r.bucketSeconds)
      && Total(chart, (p: Point) => p.blobCount) == CountOf(blobs, inRange)
      && Total(chart, (p: Point) => p.blobBytes) == Sum(blobs, inRange, (b: BlobRow) => b.size)
      && Total(chart, (p: Point) => p.blobCost) == Sum(blobs, inRange, (b: BlobRow) => b.cost)
  {
    var lo, chart := r.startTime.value, RawChart(r, blobs, metrics);
    var n: nat := |chart|;
    SpanIsWhole(r);
    forall i | 0 <= i < n {
      ChartPointMeans(r, blobs, metrics, i);
    }
    ChartTotals(r, blobs, metrics, n, ONE, (p: Point) => p.blobCount);
    ChartTotals(r, blobs, metrics, n, (b: BlobRow) => b.size, (p: Point) => p.blobBytes);
    ChartTotals(r, blobs, metrics, n, (b: BlobRow) => b.cost, (p: Point) => p.blobCost);
    SumOfOnes(blobs, BlobsUntil(lo, r.endTime), ONE);
    assert chart[..n] == chart;
  }

  lemma ChartPointMeans(r: ChartRequest, blobs: seq<BlobRow>, metrics: seq<MetricsRow>, i: int)
    requires WellAligned(r) && 0 <= i < |RawChart(r, blobs, metrics)|
    ensures var point := RawChart(r, blobs, metrics)[i];
      var within := BlobsWithin(r.startTime.value, r.endTime, r.bucketSeconds, BucketStart(r, i));
      && point.time == BucketStart(r, i)
      && point.blobCount == Sum(blobs, within, ONE)
      && point.blobBytes == Sum(blobs, within, (b: BlobRow) => b.size)
      && point.blobCost == Sum(blobs, within, (b: BlobRow) => b.cost)
  {
    ShiftAligned(r.startTime.value, i, r.bucketSeconds);
    RawPointMeans(blobs, metrics, r.startTime.value, r.endTime, r.bucketSeconds, BucketStart(r, i));
    SumOfOnes(blobs, BlobsWithin(r.startTime.value, r.endTime, r.bucketSeconds, BucketStart(r, i)), ONE);
  }

  lemma SpanIsWhole(r: ChartRequest)
    requires WellAligned(r)
    ensures BucketStart(r, (r.endTime - r.startTime.value) / r.bucketSeconds) == r.endTime
  {
    var x, y, size := r.endTime / r.bucketSeconds, r.startTime.value / r.bucketSeconds, r.bucketSeconds;
    assert r.endTime == x * size && r.startTime.value == y * size;
    assert r.endTime - r.startTime.value == (x - y) * size;
    UniqueQuotient(x - y, 0, size);
  }

  // ---------- stored rows that are exact ----------

  function BlobKey(r: BlobRollup): (int, int, string) {
    (r.bucketSeconds, r.start, r.from)
  }

  function FeeKey(r: MetricsRollup): (int, int) {
    (r.bucketSeconds, r.start)
  }

  /** The stored blob rows of size `source` in [lo, hi) are the from-scratch aggregates of their buckets. */
  ghost predicate BlobRollupsExact(rollups: seq<BlobRollup>, blobs: seq<BlobRow>, source: int, lo: int, hi: int)
    requires source > 0
  {
    && KeysDistinct(rollups, BlobKey)
    && (forall i :: 0 <= i < |rollups| && rollups[i].bucketSeconds == source && InRange(rollups[i].start, lo, hi) ==>
          rollups[i].value == BlobBucket(blobs, source, rollups[i].start, rollups[i].from))
    && (forall b :: b in blobs && InRange(Floor(b.time, source), lo, hi) ==>
          KeyIn(rollups, BlobKey, (source, Floor(b.time, source), b.from)))
  }

  ghost predicate FeeRollupsExact(rollups: seq<MetricsRollup>, metrics: seq<MetricsRow>, source: int, lo: int, hi: int)
    requires source > 0
  {
    && KeysDistinct(rollups, FeeKey)
    && (forall i :: 0 <= i < |rollups| && rollups[i].bucketSeconds == source && InRange(rollups[i].start, lo, hi) ==>
          rollups[i].value == FeeBucket(metrics, source, rollups[i].start))
    && (forall m :: m in metrics && InRange(Floor(m.time, source), lo, hi) ==>
          KeyIn(rollups, FeeKey, (source, Floor(m.time, source))))
  }

  // ---------- the rollup query equals the raw query ----------

  /** For a range aligned to the source bucket, selecting a row by its source bucket is selecting it by its time. */
  lemma SelectionAgrees(t: int, source: int, lo: int, hi: int, size: int, bucket: int)
    requires source > 0 && size > 0 && size % source == 0 && Aligned(lo, source) && Aligned(hi, source)
    ensures Selected(source, Floor(t, source), source, lo, hi, size, bucket) <==>
      InRange(t, lo, hi) && Floor(t, size) == bucket
  {
    NestedFloor(t, source, size);
    AlignedBound(lo, t, source);
    AlignedBound(hi, t, source);
  }

  /** Regrouping one column, with the arithmetic of buckets left abstract: `fine` floors to the source bucket and
      `selected` picks source buckets. */
  lemma BlobColumnBy(
    rollups: seq<BlobRollup>, blobs: seq<BlobRow>, source: int, fine: int -> int, selected: int -> bool,
    picked: BlobRollup -> bool, shown: BlobRow -> bool, f: BlobRow -> int, g: BlobRollup -> int)
    requires KeysDistinct(rollups, BlobKey)
    requires forall r :: picked(r) <==> r.bucketSeconds == source && selected(r.start)
    requires forall b :: b in blobs ==> (shown(b) <==> selected(fine(b.time)))
    requires forall i :: 0 <= i < |rollups| && picked(rollups[i]) ==>
      g(rollups[i]) == Sum(blobs, (b: BlobRow) => fine(b.time) == rollups[i].start && b.from == rollups[i].from, f)
    requires forall b :: b in blobs && selected(fine(b.time)) ==>
      KeyIn(rollups, BlobKey, (source, fine(b.time), b.from))
    ensures Sum(rollups, picked, g) == Sum(blobs, shown, f)
  {
    var kr := (b: BlobRow) => (source, fine(b.time), b.from);
    var p := (k: (int, int, string)) => k.0 == source && selected(k.1);
    forall i | 0 <= i < |rollups| && p(BlobKey(rollups[i]))
      ensures g(rollups[i]) == Sum(blobs, KeyIs(kr, BlobKey(rollups[i])), f)
    {
      SumCongruent(blobs, (b: BlobRow) => fine(b.time) == rollups[i].start && b.from == rollups[i].from,
        KeyIs(kr, BlobKey(rollups[i])), f, f);
    }
    RegroupingIsExact(blobs, kr, f, rollups, BlobKey, g, p);
    SumCongruent(rollups, OnKey(BlobKey, p), picked, g, g);
    SumCongruent(blobs, OnKey(kr, p), shown, f, f);
  }

  lemma FeeColumnBy(
    rollups: seq<MetricsRollup>, metrics: seq<MetricsRow>, source: int, fine: int -> int, selected: int -> bool,
    picked: MetricsRollup -> bool, shown: MetricsRow -> bool, f: MetricsRow -> int, g: MetricsRollup -> int)
    requires KeysDistinct(rollups, FeeKey)
    requires forall r :: picked(r) <==> r.bucketSeconds == source && selected(r.start)
    requires forall m :: m in metrics ==> (shown(m) <==> selected(fine(m.time)))
    requires forall i :: 0 <= i < |rollups| && picked(rollups[i]) ==>
      g(rollups[i]) == Sum(metrics, (m: MetricsRow) => fine(m.time) == rollups[i].start, f)
    requires forall m :: m in metrics && selected(fine(m.time)) ==> KeyIn(rollups, FeeKey, (source, fine(m.time)))
    ensures Sum(rollups, picked, g) == Sum(metrics, shown, f)
  {
    var kr := (m: MetricsRow) => (source, fine(m.time));
    var p := (k: (int, int)) => k.0 == source && selected(k.1);
    forall i | 0 <= i < |rollups| && p(FeeKey(rollups[i]))
      ensures g(rollups[i]) == Sum(metrics, KeyIs(kr, FeeKey(rollups[i])), f)
    {
      SumCongruent(metrics, (m: MetricsRow) => fine(m.time) == rollups[i].start, KeyIs(kr, FeeKey(rollups[i])), f, f);
    }
    RegroupingIsExact(metrics, kr, f, rollups, FeeKey, g, p);
    SumCongruent(rollups, OnKey(FeeKey, p), picked, g, g);
    SumCongruent(metrics, OnKey(kr, p), shown, f, f);
  }

  /** One summed column of the blob rollups. */
  lemma {:induction false} BlobColumn(
    rollups: seq<BlobRollup>, blobs: seq<BlobRow>, source: int, lo: int, hi: int, size: int, bucket: int,
    f: BlobRow -> int, g: BlobRollup -> int)
    requires source > 0 && size > 0 && size % source == 0 && Aligned(lo, source) && Aligned(hi, source)
    requires BlobRollupsExact(rollups, blobs, source, lo, hi)
    requires forall r :: r in rollups && r.bucketSeconds == source && InRange(r.start, lo, hi) ==>
      g(r) == Sum(blobs, BlobsBehind(source, r.start, r.from), f)
    ensures Sum(rollups, BlobRollupsShown(source, lo, hi, size, bucket), g) ==
      Sum(blobs, BlobsShown(lo, hi, size, bucket), f)
  {
    var fine := (t: int) => Floor(t, source);
    var selected := (k: int) => InRange(k, lo, hi) && Floor(k, size) == bucket;
    forall b | b in blobs ensures BlobsShown(lo, hi, size, bucket)(b) <==> selected(fine(b.time)) {
      SelectionAgrees(b.time, source, lo, hi, size, bucket);
    }
    forall i | 0 <= i < |rollups| && rollups[i].bucketSeconds == source && InRange(rollups[i].start, lo, hi)
      ensures g(rollups[i]) ==
        Sum(blobs, (b: BlobRow) => fine(b.time) == rollups[i].start && b.from == rollups[i].from, f)
    {
      assert rollups[i] in rollups;
      SumCongruent(blobs, BlobsBehind(source, rollups[i].start, rollups[i].from),
        (b: BlobRow) => fine(b.time) == rollups[i].start && b.from == rollups[i].from, f, f);
    }
    BlobColumnBy(rollups, blobs, source, fine, selected,
      BlobRollupsShown(source, lo, hi, size, bucket), BlobsShown(lo, hi, size, bucket), f, g);
  }

  lemma {:induction false} FeeColumn(
    rollups: seq<MetricsRollup>, metrics: seq<MetricsRow>, source: int, lo: int, hi: int, size: int, bucket: int,
    f: MetricsRow -> int, g: MetricsRollup -> int)
    requires source > 0 && size > 0 && size % source == 0 && Aligned(lo, source) && Aligned(hi, source)
    requires FeeRollupsExact(rollups, metrics, source, lo, hi)
    requires forall r :: r in rollups && r.bucketSeconds == source && InRange(r.start, lo, hi) ==>
      g(r) == Sum(metrics, BlocksBehind(source, r.start), f)
    ensures Sum(rollups, FeeRollupsShown(source, lo, hi, size, bucket), g) ==
      Sum(metrics, BlocksShown(lo, hi, size, bucket), f)
  {
    var fine := (t: int) => Floor(t, source);
    var selected := (k: int) => InRange(k, lo, hi) && Floor(k, size) == bucket;
    forall m | m in metrics ensures BlocksShown(lo, hi, size, bucket)(m) <==> selected(fine(m.time)) {
      SelectionAgrees(m.time, source, lo, hi, size, bucket);
    }
    forall i | 0 <= i < |rollups| && rollups[i].bucketSeconds == source && InRange(rollups[i].start, lo, hi)
      ensures g(rollups[i]) == Sum(metrics, (m: MetricsRow) => fine(m.time) == rollups[i].start, f)
    {
      assert rollups[i] in rollups;
      SumCongruent(
        metrics, BlocksBehind(source, rollups[i].start), (m: MetricsRow) => fine(m.time) == rollups[i].start, f, f);
    }
    FeeColumnBy(rollups, metrics, source, fine, selected,
      FeeRollupsShown(source, lo, hi, size, bucket), BlocksShown(lo, hi, size, bucket), f, g);
  }

  /** Scaling the summed column is summing the scaled one: the proxy price of a bucket. */
  lemma ProxyCost(blobs: seq<BlobRow>, p: BlobRow -> bool, scaled: BlobRow -> int)
    requires forall b: BlobRow :: scaled(b) == b.size * CALLDATA_GAS_PER_BYTE * b.baseFee
    ensures Sum(blobs, p, scaled) == CALLDATA_GAS_PER_BYTE * Sum(blobs, p, SIZE_FEE)
  {
    SumScaled(blobs, p, SIZE_FEE, CALLDATA_GAS_PER_BYTE);
    SumCongruent(blobs, p, p, scaled, (b: BlobRow) => CALLDATA_GAS_PER_BYTE * SIZE_FEE(b));
  }

  /** One chart point: count, bytes, cost, calldata equivalent and average fee all agree. */
  lemma PointAgrees(
    rollups: seq<BlobRollup>, feeRollups: seq<MetricsRollup>, blobs: seq<BlobRow>, metrics: seq<MetricsRow>,
    source: int, lo: int, hi: int, size: int, bucket: int)
    requires source > 0 && size > 0 && size % source == 0 && Aligned(lo, source) && Aligned(hi, source)
    requires BlobRollupsExact(rollups, blobs, source, lo, hi)
    requires FeeRollupsExact(feeRollups, metrics, source, lo, hi)
    ensures RollupPoint(rollups, feeRollups, source, lo, hi, size, bucket) ==
      RawPoint(blobs, metrics, lo, hi, size, bucket)
  {
    BlobColumn(rollups, blobs, source, lo, hi, size, bucket, ONE, ROLLED_COUNT);
    BlobColumn(rollups, blobs, source, lo, hi, size, bucket, SIZE, ROLLED_BYTES);
    BlobColumn(rollups, blobs, source, lo, hi, size, bucket, COST, ROLLED_COST);
    BlobColumn(rollups, blobs, source, lo, hi, size, bucket, SIZE_FEE, ROLLED_SIZE_FEE);
    FeeColumn(feeRollups, metrics, source, lo, hi, size, bucket, BASE_FEE, ROLLED_BASE_FEE);
    FeeColumn(feeRollups, metrics, source, lo, hi, size, bucket, FEE_RECORDED, ROLLED_FEE_BLOCKS);
    var scaled := (b: BlobRow) => b.size * CALLDATA_GAS_PER_BYTE * b.baseFee;
    ProxyCost(blobs, BlobsShown(lo, hi, size, bucket), scaled);
    SumCongruent(blobs, BlobsShown(lo, hi, size, bucket), BlobsShown(lo, hi, size, bucket),
      scaled, (b: BlobRow) => b.size * CALLDATA_GAS_PER_BYTE * b.baseFee);
  }

  /** MAIN RESULT. For every accepted bounded time request that the rollups serve, the rollup chart equals the
      raw chart, given stored rows that are the from-scratch aggregates of their buckets in the range. */
  lemma RollupChartIsRawChart(
    range: string, granularity: string, pointLimit: int, now: int, coverage: Option<int>,
    rollups: seq<BlobRollup>, feeRollups: seq<MetricsRollup>, blobs: seq<BlobRow>, metrics: seq<MetricsRow>)
    requires ParseChartRequest(range, granularity, pointLimit, now).Accepted?
    requires BoundedTime(ParseChartRequest(range, granularity, pointLimit, now).request)
    requires var r := ParseChartRequest(range, granularity, pointLimit, now).request;
      var source := SourceBucket(r, coverage);
      && source.Some? && source.value > 0
      && BlobRollupsExact(rollups, blobs, source.value, r.startTime.value, r.endTime)
      && FeeRollupsExact(feeRollups, metrics, source.value, r.startTime.value, r.endTime)
    ensures var r := ParseChartRequest(range, granularity, pointLimit, now).request;
      && WellAligned(r)
      && RollupChart(r, rollups, feeRollups, SourceBucket(r, coverage).value) == RawChart(r, blobs, metrics)
  {
    var r := ParseChartRequest(range, granularity, pointLimit, now).request;
    var source := SourceBucket(r, coverage).value;
    AcceptedIsAligned(range, granularity, pointLimit, now);
    AlignedDivides(r.startTime.value, source, r.bucketSeconds);
    AlignedDivides(r.endTime, source, r.bucketSeconds);
    forall i | 0 <= i < (r.endTime - r.startTime.value) / r.bucketSeconds
      ensures RollupChart(r, rollups, feeRollups, source)[i] == RawChart(r, blobs, metrics)[i]
    {
      PointAgrees(rollups, feeRollups, blobs, metrics, source, r.startTime.value, r.endTime, r.bucketSeconds,
        r.startTime.value + i * r.bucketSeconds);
    }
  }
}
