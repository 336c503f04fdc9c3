/**
 The window of blocks a transaction waited through. Its lower end is the first block at or
 after the time the transaction was seen; block_metrics has no index on time, so the probe
 is bracketed by the nearest builder rows on either side.
 */
module InclusionWindow {
  import opened Common

  /** Block timestamps by block number: every indexed block, and those with a builder row. */
  datatype Blocks = Blocks(metrics: map<int, int>, builders: map<int, int>)

  ghost predicate Consistent(b: Blocks) {
    && (forall n :: n in b.metrics ==> n > 0)
    && (forall m, n :: m in b.metrics && n in b.metrics && m < n ==> b.metrics[m] <= b.metrics[n])
    && (forall n :: n in b.builders ==> n in b.metrics && b.builders[n] == b.metrics[n])
  }

  // ---------- the brackets ----------

  /** The latest builder row before `seen`, ties broken either way; 0 without one. */
  ghost predicate IsLowerBracket(b: Blocks, seen: int, lower: int) {
    if exists n :: n in b.builders && b.builders[n] < seen then
      lower in b.builders && b.builders[lower] < seen &&
      forall n :: n in b.builders && b.builders[n] < seen ==> b.builders[n] <= b.builders[lower]
    else lower == 0
  }

  ghost predicate IsNewest(b: Blocks, n: int) {
    n in b.metrics && forall m :: m in b.metrics ==> m <= n
  }

  /** The earliest builder row at or after `seen`, ties broken either way; the newest block without one. */
  ghost predicate IsUpperBracket(b: Blocks, seen: int, upper: int) {
    if exists n :: n in b.builders && b.builders[n] >= seen then
      upper in b.builders && b.builders[upper] >= seen &&
      forall n :: n in b.builders && b.builders[n] >= seen ==> b.builders[upper] <= b.builders[n]
    else b.metrics == map[] || IsNewest(b, upper)
  }

  // ---------- the probe ----------

  ghost predicate AtOrAfter(b: Blocks, seen: int, n: int) {
    n in b.metrics && b.metrics[n] >= seen
  }

  /** MIN over a set of blocks given by a predicate; None when it is empty. */
  ghost predicate IsMin(p: int -> bool, r: Option<int>) {
    match r
    case Some(n) => p(n) && forall m :: p(m) ==> n <= m
    case None => forall m :: !p(m)
  }

  ghost function InBracket(b: Blocks, seen: int, lower: int, upper: int): int -> bool {
    n => AtOrAfter(b, seen, n) && lower < n <= upper
  }

  ghost function Unbracketed(b: Blocks, seen: int): int -> bool {
    n => AtOrAfter(b, seen, n)
  }

  /** MAIN RESULT. The bracketed probe finds the first block at or after `seen` among all indexed blocks,
      whichever rows the ties in the brackets are resolved to. */
  lemma BracketedProbeIsMinimum(b: Blocks, seen: int, lower: int, upper: int, r: Option<int>)
    requires Consistent(b) && IsLowerBracket(b, seen, lower) && IsUpperBracket(b, seen, upper)
    ensures IsMin(InBracket(b, seen, lower, upper), r) <==> IsMin(Unbracketed(b, seen), r)
  {
    var inside, all := InBracket(b, seen, lower, upper), Unbracketed(b, seen);
    assert forall n :: inside(n) ==> all(n);
    forall n | all(n) ensures lower < n {
      if exists m :: m in b.builders && b.builders[m] < seen {
        assert lower in b.metrics && b.metrics[lower] < seen;
      }
    }
    forall n | all(n) && n > upper ensures inside(upper) {
      assert !IsNewest(b, upper);
      assert all(upper);
    }
    if r.Some? && inside(r.value) && forall m :: inside(m) ==> r.value <= m {
      forall m | all(m) ensures r.value <= m {
        assert inside(m) || m > upper;
      }
    }
    if r.None? && forall m :: !inside(m) {
      forall m ensures !all(m) {
        assert all(m) ==> inside(m) || m > upper;
      }
    }
  }

  // ---------- the window ----------

  /** LEAST, ignoring NULL. */
  function Least(a: Option<int>, b: Option<int>): Option<int> {
    if a.None? then b else if b.None? then a else if a.value <= b.value then a else b
  }

  /** `from` and `to` of the window: `boundary` is the probe's result, `first` the first candidate block below the
      including block, `newest` the newest indexed block. */
  function Window(
    seen: Option<int>, boundary: Option<int>, first: Option<int>, included: Option<int>, newest: Option<int>)
    : (Option<int>, Option<int>)
  {
    var to := if included.Some? then Some(included.value - 1) else newest;
    var low := Least(if seen.Some? then boundary else None, first);
    (if low.Some? then low else if seen.Some? && to.Some? then Some(to.value + 1) else None, to)
  }

  /** The candidate rows the summary counts: those below the including block. */
  ghost predicate Counted(rows: set<int>, included: Option<int>, n: int) {
    n in rows && (included.Some? ==> n < included.value)
  }

  ghost function CountedRows(rows: set<int>, included: Option<int>): int -> bool {
    n => Counted(rows, included, n)
  }

  /** The window contains every candidate row it counts and every block from the first one at or after the time
      the transaction was seen; it starts at the earlier of those two starts. When nothing was counted and no block
      has arrived since then, it is the empty span behind its upper end. */
  lemma WindowCoversCandidates(
    b: Blocks, rows: set<int>, seen: Option<int>, boundary: Option<int>, first: Option<int>, included: Option<int>,
    newest: Option<int>, n: int)
    requires IsMin(CountedRows(rows, included), first)
    requires if b.metrics == map[] then newest == None else newest.Some? && IsNewest(b, newest.value)
    requires included.None? ==> forall m :: m in rows ==> m in b.metrics
    ensures var (from, to) := Window(seen, boundary, first, included, newest);
      && (Counted(rows, included, n) ==> from.Some? && to.Some? && from.value <= n <= to.value)
      && (seen.Some? && boundary.Some? && to.Some? && boundary.value <= n <= to.value ==>
            from.Some? && from.value <= n)
      && (from.Some? ==>
            || (seen.Some? && from == boundary)
            || Counted(rows, included, from.value)
            || (to.Some? && from.value == to.value + 1))
      && (to.Some? && included.Some? ==> to.value + 1 == included.value)
      && (to.Some? && included.None? ==> IsNewest(b, to.value))
      && (seen.Some? && boundary.None? && first.None? && to.Some? ==> from == Some(to.value + 1))
      && (seen.None? && first.None? ==> from.None?)
  {
    var p := CountedRows(rows, included);
    assert p(n) <==> Counted(rows, included, n);
    if first.Some? {
      assert p(first.value) && (p(n) ==> first.value <= n);
    }
  }
}
