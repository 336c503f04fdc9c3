/**
 Detecting new blocks for WebSocket broadcasts. Blocks commit out of order; the poller keeps
 the highest block handled (`head`), the handled blocks of a trailing window (`seen`), and on
 every tick re-reads a bounded number of rows from a window behind the head. Notifications
 may handle any block in between.
 */
module Poller {
  import opened Common

  const TRAILING_SCAN_WINDOW: nat := 32
  const MAX_SCAN_BLOCKS_PER_TICK: nat := 64

  datatype State = State(baselined: bool, head: nat, seen: set<nat>) {
    /** Scans read the rows strictly above this block. */
    function Lower(): nat {
      if head > TRAILING_SCAN_WINDOW then head - TRAILING_SCAN_WINDOW else 0
    }
  }

  const INITIAL := State(false, 0, {})

  /** How one attempt to broadcast a block ends: an event went out, nothing was to be said (no clients, or
      the row vanished), or a query failed and the block is unmarked for a retry. */
  datatype Attempt = Sent | Silent | Failed

  type Attempts = nat -> Attempt

  // ---------- transitions ----------

  function Handle(st: State, block: nat, a: Attempt): State {
    State(
      st.baselined,
      if block > st.head then block else st.head,
      if a.Failed? then st.seen - {block} else st.seen + {block})
  }

  /** The rows of one scan, each skipped if already seen. */
  function HandleAll(st: State, numbers: seq<nat>, attempts: Attempts): State {
    if numbers == [] then st
    else
      var st' := HandleAll(st, numbers[..|numbers| - 1], attempts);
      var block := numbers[|numbers| - 1];
      if block in st'.seen then st' else Handle(st', block, attempts(block))
  }

  function Prune(st: State): State {
    st.(seen := set b | b in st.seen && !(b + TRAILING_SCAN_WINDOW < st.head))
  }

  function MarkAll(st: State, numbers: seq<nat>): State {
    if numbers == [] then st else Handle(MarkAll(st, numbers[..|numbers| - 1]), numbers[|numbers| - 1], Silent)
  }

  /** One catch-up scan; `result` is what its query returned, None when it failed. */
  function Scan(st: State, result: Option<seq<nat>>, attempts: Attempts): State {
    if result.None? then st
    else if !st.baselined then MarkAll(st, result.value).(baselined := true)
    else Prune(HandleAll(st, result.value, attempts))
  }

  function Notified(st: State, block: nat, a: Attempt): State {
    if !st.baselined || block + TRAILING_SCAN_WINDOW <= st.head then st else Handle(st, block, a)
  }

  // ---------- what the queries return ----------

  /** The first rows above `lower` in ascending order, at most 64 of them. */
  ghost predicate IsBatch(numbers: seq<nat>, rows: set<nat>, lower: nat) {
    && Ascending(numbers)
    && |numbers| <= MAX_SCAN_BLOCKS_PER_TICK
    && (forall n :: n in numbers ==> n in rows && n > lower)
    && (forall r :: r in rows && r > lower ==>
          r in numbers || (|numbers| == MAX_SCAN_BLOCKS_PER_TICK && forall n :: n in numbers ==> n < r))
  }

  // ---------- the imperative form ----------

  class ChainBroadcastState {
    var baselined: bool
    var head: nat
    var seen: set<nat>

    constructor ()
      ensures View() == INITIAL
    {
      baselined, head, seen := false, 0, {};
    }

    ghost function View(): State
      reads this
    {
      State(baselined, head, seen)
    }

    /** Marks the block before anything can fail; a failed query unmarks it again. */
    method BroadcastBlock(block: nat, outcome: Attempt) returns (sent: bool)
      modifies this
      ensures View() == Handle(old(View()), block, outcome)
      ensures sent == outcome.Sent?
    {
      seen := seen + {block};
      if block > head {
        head := block;
      }
      if outcome.Failed? {
        seen := seen - {block};
        assert seen == old(seen) - {block};
        return false;
      }
      return outcome.Sent?;
    }

    method HandleNotification(block: nat, outcome: Attempt) returns (sent: bool)
      modifies this
      ensures View() == Notified(old(View()), block, outcome)
      ensures sent <==> outcome.Sent? && old(baselined) && old(head) < block + TRAILING_SCAN_WINDOW
    {
      sent := false;
      if !baselined || block + TRAILING_SCAN_WINDOW <= head {
        return;
      }
      sent := BroadcastBlock(block, outcome);
    }

    /** The first successful scan only establishes the baseline; later ones handle what they have not seen. */
    method ScanNetwork(result: Option<seq<nat>>, attempts: Attempts) returns (broadcastAny: bool)
      modifies this
      ensures View() == Scan(old(View()), result, attempts)
      ensures broadcastAny <==>
        old(baselined) && result.Some? &&
        exists n :: n in Attempted(old(View()), result.value, attempts) && attempts(n).Sent?
    {
      broadcastAny := false;
      if result.None? {
        return;
      }
      var numbers := result.value;
      if !baselined {
        for i := 0 to |numbers|
          invariant View() == MarkAll(old(View()), numbers[..i])
        {
          assert numbers[..i + 1][..i] == numbers[..i];
          seen := seen + {numbers[i]};
          if numbers[i] > head {
            head := numbers[i];
          }
        }
        assert numbers[..|numbers|] == numbers;
        baselined := true;
        return;
      }
      for i := 0 to |numbers|
        invariant View() == HandleAll(old(View()), numbers[..i], attempts)
        invariant broadcastAny <==> exists n :: n in Attempted(old(View()), numbers[..i], attempts) && attempts(n).Sent?
      {
        assert numbers[..i + 1][..i] == numbers[..i];
        if numbers[i] !in seen {
          var sent := BroadcastBlock(numbers[i], attempts(numbers[i]));
          broadcastAny := broadcastAny || sent;
        }
      }
      assert numbers[..|numbers|] == numbers;
      seen := set b | b in seen && !(b + TRAILING_SCAN_WINDOW < head);
    }
  }

  // ---------- runs ----------

  datatype Event =
    | Tick(result: Option<seq<nat>>, attempts: Attempts)
    | Notify(block: nat, outcome: Attempt)

  function Next(st: State, e: Event): State {
    match e
    case Tick(result, attempts) => Scan(st, result, attempts)
    case Notify(block, outcome) => Notified(st, block, outcome)
  }

  function After(st: State, events: seq<Event>): State {
    if events == [] then st else Next(After(st, events[..|events| - 1]), events[|events| - 1])
  }

  /** The blocks a scan attempts, in order: those of its batch not seen when their turn comes. */
  function Attempted(st: State, numbers: seq<nat>, attempts: Attempts): seq<nat> {
    if numbers == [] then []
    else
      var init := numbers[..|numbers| - 1];
      var block := numbers[|numbers| - 1];
      Attempted(st, init, attempts) + (if block in HandleAll(st, init, attempts).seen then [] else [block])
  }

  /** The blocks handled so far whose last attempt did not fail. */
  ghost function Done(st: State, events: seq<Event>): set<nat> {
    if events == [] then {}
    else
      var init := events[..|events| - 1];
      var st' := After(st, init);
      DoneBy(st', Done(st, init), events[|events| - 1])
  }

  ghost function DoneBy(st: State, done: set<nat>, e: Event): set<nat> {
    match e
    case Tick(result, attempts) =>
      if result.None? then done
      else if !st.baselined then done + (set n | n in result.value)
      else DoneByScan(st, done, result.value, attempts)
    case Notify(block, outcome) =>
      if !st.baselined || block + TRAILING_SCAN_WINDOW <= st.head then done
      else if outcome.Failed? then done - {block} else done + {block}
  }

  ghost function DoneByScan(st: State, done: set<nat>, numbers: seq<nat>, attempts: Attempts): set<nat> {
    var tried := Attempted(st, numbers, attempts);
    (done - (set n | n in tried && attempts(n).Failed?)) + (set n | n in tried && !attempts(n).Failed?)
  }

  /** Each tick's query reads ascending rows above the lower bound of its time. */
  ghost predicate Queried(st: State, events: seq<Event>) {
    events == [] ||
    (var init := events[..|events| - 1];
     var e := events[|events| - 1];
     && Queried(st, init)
     && (e.Tick? && e.result.Some? && After(st, init).baselined ==> ReadAbove(e.result.value, After(st, init).Lower())))
  }

  ghost predicate ReadAbove(numbers: seq<nat>, lower: nat) {
    Ascending(numbers) && forall n :: n in numbers ==> n > lower
  }

  /** Everything done is still marked or has fallen behind the window, and nothing marked is above the head. */
  ghost predicate Remembered(st: State, done: set<nat>) {
    && (forall b :: b in done ==> b in st.seen || b + TRAILING_SCAN_WINDOW < st.head)
    && (forall b :: b in st.seen ==> b <= st.head)
  }

  lemma {:induction false} MarkAllFacts(st: State, numbers: seq<nat>)
    ensures var st' := MarkAll(st, numbers);
      && st'.head >= st.head && st'.baselined == st.baselined
      && st'.seen == st.seen + (set n | n in numbers)
      && (forall n :: n in numbers ==> n <= st'.head)
  {
    if numbers != [] {
      MarkAllFacts(st, numbers[..|numbers| - 1]);
      assert numbers == numbers[..|numbers| - 1] + [numbers[|numbers| - 1]];
    }
  }

  lemma LastIsNew(numbers: seq<nat>)
    requires Ascending(numbers) && numbers != []
    ensures numbers[|numbers| - 1] !in numbers[..|numbers| - 1]
    ensures forall b :: b in numbers <==> b in numbers[..|numbers| - 1] || b == numbers[|numbers| - 1]
  {
    var init := numbers[..|numbers| - 1];
    assert numbers == init + [numbers[|numbers| - 1]];
    forall i | 0 <= i < |init| ensures init[i] != numbers[|numbers| - 1] {
      assert numbers[i] < numbers[|numbers| - 1];
    }
  }

  lemma {:induction false} SeenAfterAll(st: State, numbers: seq<nat>, attempts: Attempts)
    requires Ascending(numbers)
    ensures var st' := HandleAll(st, numbers, attempts);
      forall b :: b in st'.seen <==> b in st.seen || (b in numbers && !attempts(b).Failed?)
    ensures forall b :: b in Attempted(st, numbers, attempts) <==> b in numbers && b !in st.seen
  {
    if numbers != [] {
      SeenAfterAll(st, numbers[..|numbers| - 1], attempts);
      LastIsNew(numbers);
    }
  }

  /** The effect of handling an ascending batch, element by element. */
  lemma {:induction false} HandleAllFacts(st: State, numbers: seq<nat>, attempts: Attempts)
    requires Ascending(numbers)
    ensures var st' := HandleAll(st, numbers, attempts);
      && st'.head >= st.head && st'.baselined == st.baselined
      && (st'.head == st.head || st'.head in numbers)
      && (forall n :: n in numbers && n !in st.seen ==> n <= st'.head)
      && (forall b :: b in st'.seen <==> b in st.seen || (b in numbers && !attempts(b).Failed?))
    ensures forall b :: b in Attempted(st, numbers, attempts) <==> b in numbers && b !in st.seen
  {
    SeenAfterAll(st, numbers, attempts);
    if numbers != [] {
      var init := numbers[..|numbers| - 1];
      HandleAllFacts(st, init, attempts);
      LastIsNew(numbers);
    }
  }

  lemma {:induction false} RunRemembers(events: seq<Event>)
    requires Queried(INITIAL, events)
    ensures Remembered(After(INITIAL, events), Done(INITIAL, events))
  {
    if events != [] {
      var init := events[..|events| - 1];
      RunRemembers(init);
      StepRemembers(After(INITIAL, init), Done(INITIAL, init), events[|events| - 1]);
    }
  }

  lemma StepRemembers(st: State, done: set<nat>, e: Event)
    requires Remembered(st, done)
    requires e.Tick? && e.result.Some? && st.baselined ==> ReadAbove(e.result.value, st.Lower())
    ensures Remembered(Next(st, e), DoneBy(st, done, e))
    ensures Next(st, e).head >= st.head
  {
    if e.Tick? && e.result.Some? {
      if st.baselined {
        HandleAllFacts(st, e.result.value, e.attempts);
      } else {
        MarkAllFacts(st, e.result.value);
      }
    }
  }

  /** What an event does about a block in state `st`: Some(true) when it handles it without a failed query or takes
      it into the baseline, Some(false) when the query fails, None when it leaves the block alone. */
  ghost function Outcome(st: State, e: Event, block: nat): Option<bool> {
    match e
    case Tick(result, attempts) =>
      if result.None? then None
      else if !st.baselined then (if block in result.value then Some(true) else None)
      else if block in Attempted(st, result.value, attempts) then Some(!attempts(block).Failed?)
      else None
    case Notify(notified, attempt) =>
      if block == notified && st.baselined && st.head < block + TRAILING_SCAN_WINDOW then Some(!attempt.Failed?)
      else None
  }

  ghost predicate OutcomeAt(events: seq<Event>, i: int, block: nat, succeeded: bool) {
    0 <= i < |events| && Outcome(After(INITIAL, events[..i]), events[i], block) == Some(succeeded)
  }

  ghost predicate IsLatestSuccess(events: seq<Event>, i: int, block: nat) {
    OutcomeAt(events, i, block, true) && forall j :: i < j < |events| ==> !OutcomeAt(events, j, block, false)
  }

  /** The latest event that did anything about the block succeeded. */
  ghost predicate LatestSucceeded(events: seq<Event>, block: nat) {
    exists i :: IsLatestSuccess(events, i, block)
  }

  lemma SameOutcomes(events: seq<Event>, block: nat)
    requires events != []
    ensures forall i, s :: 0 <= i < |events| - 1 ==>
      (OutcomeAt(events, i, block, s) <==> OutcomeAt(events[..|events| - 1], i, block, s))
  {
    var init := events[..|events| - 1];
    forall i, s | 0 <= i < |events| - 1 ensures OutcomeAt(events, i, block, s) <==> OutcomeAt(init, i, block, s) {
      assert events[..i] == init[..i] && events[i] == init[i];
    }
  }

  lemma LatestOfMore(events: seq<Event>, block: nat)
    requires events != []
    ensures var init, n := events[..|events| - 1], |events| - 1;
      LatestSucceeded(events, block) <==>
        OutcomeAt(events, n, block, true) || (!OutcomeAt(events, n, block, false) && LatestSucceeded(init, block))
  {
    var init, n := events[..|events| - 1], |events| - 1;
    SameOutcomes(events, block);
    if LatestSucceeded(events, block) {
      var i :| IsLatestSuccess(events, i, block);
      if i < n {
        forall j | i < j < n ensures !OutcomeAt(init, j, block, false) {
          assert !OutcomeAt(events, j, block, false);
        }
        assert IsLatestSuccess(init, i, block);
      }
    }
    if OutcomeAt(events, n, block, true) {
      assert IsLatestSuccess(events, n, block);
    } else if !OutcomeAt(events, n, block, false) && LatestSucceeded(init, block) {
      var i :| IsLatestSuccess(init, i, block);
      assert IsLatestSuccess(events, i, block);
    }
  }

  /** The record of what is done is exactly that. */
  lemma {:induction false} DoneIffLatestSucceeded(events: seq<Event>, block: nat)
    ensures block in Done(INITIAL, events) <==> LatestSucceeded(events, block)
  {
    if events != [] {
      DoneIffLatestSucceeded(events[..|events| - 1], block);
      LatestOfMore(events, block);
    }
  }

  /** MAIN RESULT. In every run, with any mix of scans and notifications, a scan only attempts blocks that were
      never handled, or whose latest attempt failed. */
  lemma ScansNeverRepeat(events: seq<Event>, numbers: seq<nat>, attempts: Attempts)
    requires Queried(INITIAL, events) && After(INITIAL, events).baselined
    requires ReadAbove(numbers, After(INITIAL, events).Lower())
    ensures forall b :: b in Attempted(After(INITIAL, events), numbers, attempts) ==> !LatestSucceeded(events, b)
  {
    RunRemembers(events);
    HandleAllFacts(After(INITIAL, events), numbers, attempts);
    forall b {
      DoneIffLatestSucceeded(events, b);
    }
  }

  /** The head never moves back over any run. */
  lemma {:induction false} HeadIsMonotone(events: seq<Event>, more: seq<Event>)
    requires Queried(INITIAL, events + more)
    ensures After(INITIAL, events).head <= After(INITIAL, events + more).head
  {
    if more == [] {
      assert events + more == events;
    } else {
      var all := events + more;
      var init := more[..|more| - 1];
      assert all[..|all| - 1] == events + init && all[|all| - 1] == more[|more| - 1];
      HeadIsMonotone(events, init);
      RunRemembers(events + init);
      StepRemembers(After(INITIAL, events + init), Done(INITIAL, events + init), all[|all| - 1]);
    }
  }

  lemma {:induction false} IntervalCardinality(s: set<nat>, lo: int, hi: int)
    requires forall x :: x in s ==> lo < x <= hi
    ensures lo <= hi ==> |s| <= hi - lo
    ensures lo >= hi ==> s == {}
    decreases hi - lo
  {
    if lo < hi {
      var rest := s - {hi};
      IntervalCardinality(rest, lo, hi - 1);
      assert |s| <= |rest| + 1 by {
        if hi in s {
          assert s == rest + {hi};
        } else {
          assert s == rest;
        }
      }
    }
  }

  /** After every successful scan past the baseline, what is remembered fits the window: at most 33 blocks. */
  lemma ScanLeavesWindow(events: seq<Event>, numbers: seq<nat>, attempts: Attempts)
    requires Queried(INITIAL, events) && After(INITIAL, events).baselined
    requires ReadAbove(numbers, After(INITIAL, events).Lower())
    ensures var st := Scan(After(INITIAL, events), Some(numbers), attempts);
      && (forall b :: b in st.seen ==> st.head - TRAILING_SCAN_WINDOW <= b <= st.head)
      && |st.seen| <= TRAILING_SCAN_WINDOW + 1
  {
    var before := After(INITIAL, events);
    RunRemembers(events);
    StepRemembers(before, Done(INITIAL, events), Tick(Some(numbers), attempts));
    var st := Scan(before, Some(numbers), attempts);
    IntervalCardinality(st.seen, st.head - TRAILING_SCAN_WINDOW - 1, st.head);
  }

  /** What the baseline query returns: the newest rows, at most one window of them. */
  ghost predicate IsNewest(numbers: seq<nat>, rows: set<nat>) {
    && |Elements(numbers)| == |numbers| <= TRAILING_SCAN_WINDOW
    && (forall n :: n in numbers ==> n in rows)
    && (forall r :: r in rows ==>
          r in numbers || (|numbers| == TRAILING_SCAN_WINDOW && forall n :: n in numbers ==> n > r))
  }

  /** The first successful query only marks what it returned: nothing is attempted, and the head is the highest of
      its rows, 0 without any. */
  lemma BaselineMarksOnly(newest: seq<nat>, attempts: Attempts)
    ensures var st := Scan(INITIAL, Some(newest), attempts);
      && st.baselined && st.seen == Elements(newest)
      && (if newest == [] then st.head == 0 else st.head in newest && forall n :: n in newest ==> n <= st.head)
  {
    MarkAllFacts(INITIAL, newest);
    MarkAllHead(INITIAL, newest);
  }

  lemma {:induction false} MarkAllHead(st: State, numbers: seq<nat>)
    ensures MarkAll(st, numbers).head == st.head || MarkAll(st, numbers).head in numbers
    ensures numbers != [] && st.head == 0 ==> MarkAll(st, numbers).head in numbers
  {
    if numbers != [] {
      MarkAllHead(st, numbers[..|numbers| - 1]);
      assert numbers == numbers[..|numbers| - 1] + [numbers[|numbers| - 1]];
    }
  }

  /** The scan after the baseline replays no history: over the same rows it attempts nothing. */
  lemma BaselineReplaysNothing(newest: seq<nat>, rows: set<nat>, numbers: seq<nat>, attempts: Attempts)
    requires IsNewest(newest, rows)
    requires IsBatch(numbers, rows, Scan(INITIAL, Some(newest), attempts).Lower())
    ensures Attempted(Scan(INITIAL, Some(newest), attempts), numbers, attempts) == []
  {
    var st := Scan(INITIAL, Some(newest), attempts);
    MarkAllFacts(INITIAL, newest);
    HandleAllFacts(st, numbers, attempts);
    forall n | n in numbers ensures n in newest {
      if n !in newest {
        IntervalCardinality(Elements(newest), n, if n <= st.head then st.head else n);
      }
    }
    NoElements(Attempted(st, numbers, attempts));
  }

  // ---------- progress of scan-only operation ----------

  ghost function Elements(s: seq<nat>): set<nat> {
    set n | n in s
  }

  ghost function Above(rows: set<nat>, head: nat): set<nat> {
    set r | r in rows && r > head
  }

  lemma {:induction false} AscendingCardinality(s: seq<nat>)
    requires Ascending(s)
    ensures |Elements(s)| == |s|
  {
    if s == [] {
      assert Elements(s) == {};
    } else {
      var init := s[..|s| - 1];
      var last := s[|s| - 1];
      AscendingCardinality(init);
      assert s == init + [last];
      assert Elements(s) == Elements(init) + {last};
      forall i | 0 <= i < |init| ensures init[i] != last {
        assert s[i] < s[|s| - 1];
      }
    }
  }

  /** A batch holds all rows above the head, or at least 32 of them. */
  lemma BatchReachesAboveHead(st: State, numbers: seq<nat>, rows: set<nat>)
    requires IsBatch(numbers, rows, st.Lower())
    ensures Above(Elements(numbers), st.head) <= Above(rows, st.head)
    ensures Above(Elements(numbers), st.head) == Above(rows, st.head)
      || |Above(Elements(numbers), st.head)| >= MAX_SCAN_BLOCKS_PER_TICK - TRAILING_SCAN_WINDOW
  {
    var all := Elements(numbers);
    var high := Above(all, st.head);
    if |numbers| == MAX_SCAN_BLOCKS_PER_TICK {
      var low := set n | n in all && n <= st.head;
      AscendingCardinality(numbers);
      IntervalCardinality(low, st.Lower(), st.head);
      assert all == low + high;
    } else {
      assert forall r :: r in Above(rows, st.head) ==> r in numbers;
    }
  }

  /** The bounded scan strands nothing: every row above the old window's edge and up to the new head was read. */
  lemma BatchCoversUpToNewHead(st: State, numbers: seq<nat>, rows: set<nat>, attempts: Attempts, r: nat)
    requires IsBatch(numbers, rows, st.Lower())
    requires r in rows && st.Lower() < r <= HandleAll(st, numbers, attempts).head
    ensures r in numbers
  {
    HandleAllFacts(st, numbers, attempts);
    if r !in numbers {
      AscendingCardinality(numbers);
      assert forall n :: n in Elements(numbers) ==> st.Lower() < n <= st.head;
      IntervalCardinality(Elements(numbers), st.Lower(), st.head);
    }
  }

  /** One tick of scan-only operation: the 32-block bound on new rows is met, and the backlog shrinks by it. */
  lemma TickShrinksBacklog(st: State, rows: set<nat>, numbers: seq<nat>, attempts: Attempts)
    requires st.baselined && IsBatch(numbers, rows, st.Lower()) && forall b :: b in st.seen ==> b <= st.head
    ensures var st' := Scan(st, Some(numbers), attempts);
      var fresh0 := set n | n in Attempted(st, numbers, attempts) && n > st.head;
      && (Above(rows, st'.head) == {} || |Above(rows, st'.head)| + 32 <= |Above(rows, st.head)|)
      && (fresh0 == Above(rows, st.head) || |fresh0| >= 32)
  {
    var st' := Scan(st, Some(numbers), attempts);
    var high := Above(Elements(numbers), st.head);
    HandleAllFacts(st, numbers, attempts);
    BatchReachesAboveHead(st, numbers, rows);
    assert (set n | n in Attempted(st, numbers, attempts) && n > st.head) == high;
    assert forall n :: n in high ==> n !in st.seen && n <= st'.head;
    assert Above(rows, st'.head) <= Above(rows, st.head) - high;
    if high != Above(rows, st.head) {
      SubsetSize(Above(rows, st'.head), Above(rows, st.head) - high);
    }
  }

  /** No tick attempts more than 64 blocks. */
  lemma TickIsBounded(st: State, rows: set<nat>, numbers: seq<nat>, attempts: Attempts)
    requires IsBatch(numbers, rows, st.Lower())
    ensures |Attempted(st, numbers, attempts)| <= 64
  {
    AttemptedIsShorter(st, numbers, attempts);
  }

  lemma {:induction false} AttemptedIsShorter(st: State, numbers: seq<nat>, attempts: Attempts)
    ensures |Attempted(st, numbers, attempts)| <= |numbers|
  {
    if numbers != [] {
      AttemptedIsShorter(st, numbers[..|numbers| - 1], attempts);
    }
  }

  /** No row of the window slips through one scan: it is above the new head, or marked, or its attempt in this very
      scan failed, or the window has moved past it; and one at or below the new head that was not marked before
      was attempted. */
  lemma ScanMissesNothing(st: State, numbers: seq<nat>, rows: set<nat>, attempts: Attempts, r: nat)
    requires st.baselined && IsBatch(numbers, rows, st.Lower()) && r in rows && st.Lower() < r
    ensures var st' := Scan(st, Some(numbers), attempts);
      && (r > st'.head || r in st'.seen || r + TRAILING_SCAN_WINDOW < st'.head ||
          (r in Attempted(st, numbers, attempts) && attempts(r).Failed?))
      && (r <= st'.head && r !in st.seen ==> r in Attempted(st, numbers, attempts))
  {
    HandleAllFacts(st, numbers, attempts);
    if r <= HandleAll(st, numbers, attempts).head {
      BatchCoversUpToNewHead(st, numbers, rows, attempts, r);
    }
  }

  /** A scan-only run over a fixed table, one batch per tick. */
  ghost predicate ScanOnly(st: State, rows: set<nat>, ticks: seq<(seq<nat>, Attempts)>) {
    ticks == [] ||
    (var init := ticks[..|ticks| - 1];
     ScanOnly(st, rows, init) && IsBatch(ticks[|ticks| - 1].0, rows, Scanned(st, init).Lower()))
  }

  ghost function Scanned(st: State, ticks: seq<(seq<nat>, Attempts)>): State {
    if ticks == [] then st
    else Scan(Scanned(st, ticks[..|ticks| - 1]), Some(ticks[|ticks| - 1].0), ticks[|ticks| - 1].1)
  }

  /** MAIN RESULT. A backlog of k rows above the head is drained after any n ticks with 32 n >= k. */
  lemma {:induction false} BacklogDrains(st: State, rows: set<nat>, ticks: seq<(seq<nat>, Attempts)>)
    requires st.baselined && (forall b :: b in st.seen ==> b <= st.head) && ScanOnly(st, rows, ticks)
    ensures var st' := Scanned(st, ticks);
      && st'.baselined && st'.head >= st.head && (forall b :: b in st'.seen ==> b <= st'.head)
      && (Above(rows, st'.head) == {} || |Above(rows, st'.head)| + 32 * |ticks| <= |Above(rows, st.head)|)
      && (32 * |ticks| >= |Above(rows, st.head)| ==> Above(rows, st'.head) == {})
  {
    if ticks != [] {
      var init := ticks[..|ticks| - 1];
      var last := ticks[|ticks| - 1];
      var before := Scanned(st, init);
      BacklogDrains(st, rows, init);
      TickShrinksBacklog(before, rows, last.0, last.1);
      HandleAllFacts(before, last.0, last.1);
      assert Above(rows, Scanned(st, ticks).head) <= Above(rows, before.head);
    }
  }

  /** Ticks over a table that keeps changing. */
  datatype LiveTick = LiveTick(rows: set<nat>, numbers: seq<nat>, attempts: Attempts)

  ghost predicate LiveRun(st: State, ticks: seq<LiveTick>) {
    ticks == [] ||
    (var init := ticks[..|ticks| - 1];
     var t := ticks[|ticks| - 1];
     && LiveRun(st, init)
     && IsBatch(t.numbers, t.rows, LiveScanned(st, init).Lower()))
  }

  ghost function LiveScanned(st: State, ticks: seq<LiveTick>): State {
    if ticks == [] then st
    else Scan(LiveScanned(st, ticks[..|ticks| - 1]), Some(ticks[|ticks| - 1].numbers), ticks[|ticks| - 1].attempts)
  }

  /** Ticks over a table are one kind of run. */
  function AsEvents(ticks: seq<LiveTick>): (events: seq<Event>)
    ensures |events| == |ticks|
  {
    seq(|ticks|, i requires 0 <= i < |ticks| => Tick(Some(ticks[i].numbers), ticks[i].attempts))
  }

  lemma {:induction false} LiveScannedIsAfter(st: State, ticks: seq<LiveTick>)
    ensures LiveScanned(st, ticks) == After(st, AsEvents(ticks))
  {
    if ticks != [] {
      var init := ticks[..|ticks| - 1];
      LiveScannedIsAfter(st, init);
      assert AsEvents(ticks)[..|init|] == AsEvents(init);
    }
  }

  /** The block was attempted by one of the ticks. */
  ghost predicate HandledIn(st: State, ticks: seq<LiveTick>, block: nat) {
    exists i :: 0 <= i < |ticks| && block in Attempted(LiveScanned(st, ticks[..i]), ticks[i].numbers, ticks[i].attempts)
  }

  /** MAIN RESULT. Late commits are not lost: a row that is present from now on, and that commits above the
      window's lower edge, is at every later time handled, already seen, or still ahead of the head. */
  lemma {:induction false} InWindowRowsAreHandled(st: State, ticks: seq<LiveTick>, block: nat)
    requires st.baselined && block > st.Lower() && LiveRun(st, ticks)
    requires forall i :: 0 <= i < |ticks| ==> block in ticks[i].rows
    ensures LiveScanned(st, ticks).baselined
    ensures ticks == [] || HandledIn(st, ticks, block) || block in st.seen || block > LiveScanned(st, ticks).head
  {
    if ticks != [] {
      var init := ticks[..|ticks| - 1];
      var t := ticks[|ticks| - 1];
      var before := LiveScanned(st, init);
      InWindowRowsAreHandled(st, init, block);
      HandleAllFacts(before, t.numbers, t.attempts);
      if HandledIn(st, init, block) {
        var i :| 0 <= i < |init| && block in Attempted(LiveScanned(st, init[..i]), init[i].numbers, init[i].attempts);
        assert ticks[..i] == init[..i] && ticks[i] == init[i];
      } else if block !in st.seen && block <= LiveScanned(st, ticks).head {
        if init == [] {
          assert before == st;
        }
        BatchCoversUpToNewHead(before, t.numbers, t.rows, t.attempts, block);
        SeenWasHandled(st, init, block);
        assert ticks[..|ticks| - 1] == init;
      }
    }
  }

  /** Whatever a live run has come to see, it handled. */
  lemma {:induction false} SeenWasHandled(st: State, ticks: seq<LiveTick>, block: nat)
    requires st.baselined && LiveRun(st, ticks)
    ensures LiveScanned(st, ticks).baselined && LiveScanned(st, ticks).head >= st.head
    ensures block in LiveScanned(st, ticks).seen ==> block in st.seen || HandledIn(st, ticks, block)
  {
    if ticks != [] {
      var init := ticks[..|ticks| - 1];
      var t := ticks[|ticks| - 1];
      var before := LiveScanned(st, init);
      SeenWasHandled(st, init, block);
      HandleAllFacts(before, t.numbers, t.attempts);
      if block in LiveScanned(st, ticks).seen && block !in st.seen {
        if block in before.seen {
          var i :| 0 <= i < |init| && block in Attempted(LiveScanned(st, init[..i]), init[i].numbers, init[i].attempts);
          assert ticks[..i] == init[..i] && ticks[i] == init[i];
        } else {
          assert ticks[..|ticks| - 1] == init;
        }
      }
    }
  }

  /** Conversely, a row at or below the lower edge that has not been handled never will be. */
  lemma {:induction false} BelowWindowIsNeverHandled(st: State, ticks: seq<LiveTick>, block: nat)
    requires st.baselined && block <= st.Lower() && LiveRun(st, ticks)
    ensures !HandledIn(st, ticks, block)
    ensures LiveScanned(st, ticks).Lower() >= st.Lower() && LiveScanned(st, ticks).baselined
  {
    if ticks != [] {
      var init := ticks[..|ticks| - 1];
      var t := ticks[|ticks| - 1];
      BelowWindowIsNeverHandled(st, init, block);
      HandleAllFacts(LiveScanned(st, init), t.numbers, t.attempts);
      forall i | 0 <= i < |ticks|
        ensures block !in Attempted(LiveScanned(st, ticks[..i]), ticks[i].numbers, ticks[i].attempts)
      {
        if i < |init| {
          assert ticks[..i] == init[..i] && ticks[i] == init[i];
        } else {
          assert ticks[..i] == init;
        }
      }
    }
  }

  /** One of the ticks attempted the block without a failed query. */
  ghost predicate SucceededIn(st: State, ticks: seq<LiveTick>, block: nat) {
    exists i :: 0 <= i < |ticks| && !ticks[i].attempts(block).Failed? &&
      block in Attempted(LiveScanned(st, ticks[..i]), ticks[i].numbers, ticks[i].attempts)
  }

  /** Tick `i` found the block inside its window and at or below the head it reached. */
  ghost predicate WithinReach(st: State, ticks: seq<LiveTick>, i: nat, block: nat) {
    i < |ticks| && LiveScanned(st, ticks[..i]).Lower() < block <= LiveScanned(st, ticks[..i + 1]).head
  }

  /** A success among the first ticks is one among all of them. */
  lemma SucceededExtends(st: State, ticks: seq<LiveTick>, block: nat)
    requires ticks != [] && SucceededIn(st, ticks[..|ticks| - 1], block)
    ensures SucceededIn(st, ticks, block)
  {
    var init := ticks[..|ticks| - 1];
    var i :| 0 <= i < |init| && !init[i].attempts(block).Failed? &&
      block in Attempted(LiveScanned(st, init[..i]), init[i].numbers, init[i].attempts);
    assert ticks[..i] == init[..i] && ticks[i] == init[i];
  }

  /** Tick `i` attempted the block, and its query failed. */
  ghost predicate FailedAt(st: State, ticks: seq<LiveTick>, i: nat, block: nat) {
    i < |ticks| && ticks[i].attempts(block).Failed? &&
    block in Attempted(LiveScanned(st, ticks[..i]), ticks[i].numbers, ticks[i].attempts)
  }

  /** The last tick: a row in reach and not yet marked is attempted, so its query failed, and it stays unmarked. */
  lemma LastTickRetries(st: State, ticks: seq<LiveTick>, block: nat)
    requires ticks != [] && LiveRun(st, ticks) && block in ticks[|ticks| - 1].rows
    requires var before := LiveScanned(st, ticks[..|ticks| - 1]); before.baselined && block !in before.seen
    requires !SucceededIn(st, ticks, block)
    ensures LiveScanned(st, ticks).baselined && block !in LiveScanned(st, ticks).seen
    ensures WithinReach(st, ticks, |ticks| - 1, block) ==> FailedAt(st, ticks, |ticks| - 1, block)
  {
    var last := |ticks| - 1;
    var t := ticks[last];
    var before := LiveScanned(st, ticks[..last]);
    HandleAllFacts(before, t.numbers, t.attempts);
    assert block in Attempted(before, t.numbers, t.attempts) ==> t.attempts(block).Failed?;
    if before.Lower() < block {
      ScanMissesNothing(before, t.numbers, t.rows, t.attempts, block);
      assert ticks[..last + 1] == ticks;
    }
  }

  /** MAIN RESULT. Failed queries are retried: until one of its queries goes through, a row that stays present is
      attempted, and fails, on every single tick whose window reaches it. */
  lemma {:induction false} RetriedWhileInReach(st: State, ticks: seq<LiveTick>, block: nat)
    requires st.baselined && LiveRun(st, ticks) && block !in st.seen
    requires forall i :: 0 <= i < |ticks| ==> block in ticks[i].rows
    requires !SucceededIn(st, ticks, block)
    ensures LiveScanned(st, ticks).baselined && block !in LiveScanned(st, ticks).seen
    ensures forall i: nat :: WithinReach(st, ticks, i, block) ==> FailedAt(st, ticks, i, block)
  {
    if ticks != [] {
      var init := ticks[..|ticks| - 1];
      if SucceededIn(st, init, block) {
        SucceededExtends(st, ticks, block);
      }
      RetriedWhileInReach(st, init, block);
      LastTickRetries(st, ticks, block);
      forall i: nat | WithinReach(st, ticks, i, block) ensures FailedAt(st, ticks, i, block) {
        if i < |init| {
          assert ticks[..i] == init[..i] && ticks[..i + 1] == init[..i + 1] && ticks[i] == init[i];
          assert WithinReach(st, init, i, block);
          assert FailedAt(st, init, i, block);
        }
      }
    }
  }
}
