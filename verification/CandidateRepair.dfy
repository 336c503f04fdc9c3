/**
 Repairing inclusion candidates. A candidate row says a transaction was pending when a block
 arrived; it is impossible if the transaction, or a fee bump that replaced it, was confirmed
 in a lower block. The repair deletes such rows, following replacements for a bounded number
 of steps, and recomputes the aggregates of the blocks it touched.
 */
module CandidateRepair {
  import opened Common
  import opened Aggregation

  type TxHash = string

  const MAX_REPLACEMENT_STEPS: nat := 32

  datatype Candidate = Candidate(block: int, hash: TxHash, blobCount: int, tip: Option<int>, eligible: bool)

  /** Per-block aggregates of the candidate rows. */
  datatype Aggregates = Aggregates(pending: int, skippedTxs: int, skippedBlobs: int, maxTip: Option<int>)

  /** A builder row; only blocks that took a snapshot of the pool carry meaningful aggregates. */
  datatype Builder = Builder(snapshot: bool, aggregates: Aggregates)

  /** Confirmed transactions with their block, and which hash replaced which (one row per replaced hash). */
  datatype Chain = Chain(confirmed: set<(TxHash, int)>, replacements: map<TxHash, TxHash>)

  // ---------- replacements ----------

  /** The hash after `n` replacements, if the log goes that far. */
  function Follow(c: Chain, hash: TxHash, n: nat): Option<TxHash> {
    if n == 0 then Some(hash)
    else
      match Follow(c, hash, n - 1)
      case None => None
      case Some(h) => if h in c.replacements then Some(c.replacements[h]) else None
  }

  predicate ConfirmedBelow(c: Chain, hash: TxHash, block: int) {
    exists p :: p in c.confirmed && p.0 == hash && p.1 < block
  }

  /** The hash reached after `n` replacements exists and is confirmed below `block`. */
  predicate ConfirmedAfter(c: Chain, hash: TxHash, n: nat, block: int) {
    Follow(c, hash, n).Some? && ConfirmedBelow(c, Follow(c, hash, n).value, block)
  }

  /** Itself or a replacement within 32 steps is confirmed in a lower block. */
  ghost predicate Stale(c: Chain, row: Candidate) {
    exists n :: 0 <= n <= MAX_REPLACEMENT_STEPS && ConfirmedAfter(c, row.hash, n, row.block)
  }

  /** Without the bound: itself or any replacement at all. */
  ghost predicate Impossible(c: Chain, row: Candidate) {
    exists n: nat :: ConfirmedAfter(c, row.hash, n, row.block)
  }

  /** The log ends within 32 steps of `hash`, or has come back to a hash it already visited. */
  ghost predicate WithinBound(c: Chain, hash: TxHash) {
    || Follow(c, hash, MAX_REPLACEMENT_STEPS + 1).None?
    || exists i, j :: 0 <= i < j <= MAX_REPLACEMENT_STEPS + 1 && Follow(c, hash, i) == Follow(c, hash, j)
  }

  lemma {:induction false} FollowEnds(c: Chain, hash: TxHash, m: nat, n: nat)
    requires m <= n && Follow(c, hash, m).None?
    ensures Follow(c, hash, n).None?
  {
    if m < n {
      FollowEnds(c, hash, m, n - 1);
    }
  }

  /** Once the walk repeats itself it only cycles. */
  lemma {:induction false} FollowCycles(c: Chain, hash: TxHash, i: nat, j: nat, n: nat)
    requires i < j && Follow(c, hash, i) == Follow(c, hash, j)
    ensures Follow(c, hash, i + n) == Follow(c, hash, j + n)
  {
    if n > 0 {
      FollowCycles(c, hash, i, j, n - 1);
    }
  }

  /** In a walk that loops within the bound, every hash is already met within the bound. */
  lemma {:induction false} LoopStaysInBound(c: Chain, hash: TxHash, i: nat, j: nat, n: nat) returns (m: nat)
    requires i < j <= MAX_REPLACEMENT_STEPS + 1 && Follow(c, hash, i) == Follow(c, hash, j)
    ensures m <= MAX_REPLACEMENT_STEPS && Follow(c, hash, m) == Follow(c, hash, n)
    decreases n
  {
    if n <= MAX_REPLACEMENT_STEPS {
      m := n;
    } else {
      FollowCycles(c, hash, i, j, n - j);
      m := LoopStaysInBound(c, hash, i, j, i + (n - j));
    }
  }

  /** MAIN RESULT. Where the log ends or loops within 32 steps, the bounded walk decides full reachability. */
  lemma BoundedWalkIsReachability(c: Chain, row: Candidate)
    requires WithinBound(c, row.hash)
    ensures Stale(c, row) <==> Impossible(c, row)
  {
    if Impossible(c, row) {
      var n: nat :| ConfirmedAfter(c, row.hash, n, row.block);
      if n > MAX_REPLACEMENT_STEPS {
        if Follow(c, row.hash, MAX_REPLACEMENT_STEPS + 1).None? {
          FollowEnds(c, row.hash, MAX_REPLACEMENT_STEPS + 1, n);
        } else {
          var i, j :| 0 <= i < j <= MAX_REPLACEMENT_STEPS + 1 && Follow(c, row.hash, i) == Follow(c, row.hash, j);
          var m := LoopStaysInBound(c, row.hash, i, j, n);
          assert ConfirmedAfter(c, row.hash, m, row.block);
        }
      }
    }
  }

  // ---------- the bound is real ----------

  /** The transaction after `i` fee bumps. */
  function Bumped(i: nat): (h: TxHash)
    ensures |h| == i
  {
    seq(i, _ => 'x')
  }

  function Bumps(n: nat): set<TxHash> {
    set i: nat | i < n :: Bumped(i)
  }

  /** A transaction bumped `n` times, its last form confirmed in `block`. */
  function BumpedChain(n: nat, block: int): Chain {
    Chain({(Bumped(n), block)}, map h | h in Bumps(n) :: Bumped(|h| + 1))
  }

  lemma BumpedBelow(n: nat, k: nat)
    ensures Bumped(k) in Bumps(n) <==> k < n
    ensures Bumped(k) == Bumped(n) <==> k == n
  {
    if Bumped(k) in Bumps(n) {
      var i: nat :| i < n && Bumped(i) == Bumped(k);
      assert |Bumped(i)| == |Bumped(k)|;
    }
    assert |Bumped(k)| == k && |Bumped(n)| == n;
  }

  lemma {:induction false} FollowBumps(n: nat, block: int, k: nat)
    ensures Follow(BumpedChain(n, block), Bumped(0), k) == if k <= n then Some(Bumped(k)) else None
  {
    if k > 0 {
      FollowBumps(n, block, k - 1);
      BumpedBelow(n, k - 1);
    }
  }

  /** A candidate row is impossible whenever a later form of its transaction is confirmed in a lower block, and
      the walk finds out if and only if at most 32 bumps lie between. */
  lemma BumpsBeyondTheBound(n: nat, block: int, row: Candidate)
    requires row.hash == Bumped(0)
    ensures Impossible(BumpedChain(n, block), row) <==> block < row.block
    ensures Stale(BumpedChain(n, block), row) <==> block < row.block && n <= 32
  {
    var c := BumpedChain(n, block);
    forall k: nat ensures ConfirmedAfter(c, row.hash, k, row.block) <==> k == n && block < row.block {
      FollowBumps(n, block, k);
      BumpedBelow(n, k);
      assert c.confirmed == {(Bumped(n), block)};
      if k == n && block < row.block {
        assert (Bumped(n), block) in c.confirmed;
      }
    }
    assert ConfirmedAfter(c, row.hash, n, row.block) <==> block < row.block;
  }

  // ---------- aggregates ----------

  function MaxTip(a: Option<int>, b: Option<int>): Option<int> {
    if a.None? then b else if b.None? then a else if a.value >= b.value then a else b
  }

  function Add(a: Aggregates, row: Candidate): Aggregates {
    if row.eligible then
      Aggregates(a.pending + 1, a.skippedTxs + 1, a.skippedBlobs + row.blobCount, MaxTip(a.maxTip, row.tip))
    else a.(pending := a.pending + 1)
  }

  function AggregatesOf(rows: seq<Candidate>, block: int): Aggregates {
    if rows == [] then Aggregates(0, 0, 0, None)
    else
      var a := AggregatesOf(rows[..|rows| - 1], block);
      if rows[|rows| - 1].block == block then Add(a, rows[|rows| - 1]) else a
  }

  // What the aggregates say about the rows, without the fold that computes them

  predicate EligibleIn(row: Candidate, block: int) {
    row.block == block && row.eligible
  }

  ghost predicate IsRowOf(rows: seq<Candidate>, block: int, i: nat) {
    i < |rows| && rows[i].block == block
  }

  ghost predicate IsEligibleRowOf(rows: seq<Candidate>, block: int, i: nat) {
    i < |rows| && EligibleIn(rows[i], block)
  }

  /** A tip of one of the block's eligible rows that no other exceeds; None when none of them has a tip. */
  ghost predicate IsMaxTip(rows: seq<Candidate>, block: int, tip: Option<int>) {
    match tip
    case None => forall r :: r in rows && EligibleIn(r, block) ==> r.tip.None?
    case Some(t) =>
      && (exists r :: r in rows && EligibleIn(r, block) && r.tip == Some(t))
      && (forall r :: r in rows && EligibleIn(r, block) && r.tip.Some? ==> r.tip.value <= t)
  }

  /** How many rows the block has, how many of them are eligible, how many blobs those carry, and their highest
      tip. */
  ghost predicate Summarises(rows: seq<Candidate>, block: int, a: Aggregates) {
    && a.pending == |set i: nat | i < |rows| && IsRowOf(rows, block, i)|
    && a.skippedTxs == |set i: nat | i < |rows| && IsEligibleRowOf(rows, block, i)|
    && a.skippedBlobs == Sum(rows, (r: Candidate) => EligibleIn(r, block), (r: Candidate) => r.blobCount)
    && IsMaxTip(rows, block, a.maxTip)
  }

  lemma CountAppend(rows: seq<Candidate>, row: Candidate, block: int)
    ensures |set i: nat | i < |rows + [row]| && IsRowOf(rows + [row], block, i)| ==
      |set i: nat | i < |rows| && IsRowOf(rows, block, i)| + if row.block == block then 1 else 0
  {
    var n: nat, all := |rows|, rows + [row];
    var before := set i: nat | i < n && IsRowOf(rows, block, i);
    var after := set i: nat | i < |all| && IsRowOf(all, block, i);
    assert forall i: nat :: i < n ==> (IsRowOf(all, block, i) <==> IsRowOf(rows, block, i));
    assert after == if row.block == block then before + {n} else before;
  }

  lemma EligibleCountAppend(rows: seq<Candidate>, row: Candidate, block: int)
    ensures |set i: nat | i < |rows + [row]| && IsEligibleRowOf(rows + [row], block, i)| ==
      |set i: nat | i < |rows| && IsEligibleRowOf(rows, block, i)| + if EligibleIn(row, block) then 1 else 0
  {
    var n: nat, all := |rows|, rows + [row];
    var before := set i: nat | i < n && IsEligibleRowOf(rows, block, i);
    var after := set i: nat | i < |all| && IsEligibleRowOf(all, block, i);
    assert forall i: nat :: i < n ==> (IsEligibleRowOf(all, block, i) <==> IsEligibleRowOf(rows, block, i));
    assert after == if EligibleIn(row, block) then before + {n} else before;
  }

  lemma MaxTipAppend(rows: seq<Candidate>, row: Candidate, block: int, tip: Option<int>)
    requires IsMaxTip(rows, block, tip)
    ensures IsMaxTip(rows + [row], block, if EligibleIn(row, block) then MaxTip(tip, row.tip) else tip)
  {
    assert forall r :: r in rows + [row] <==> r in rows || r == row;
  }

  lemma MaxTipUnique(rows: seq<Candidate>, block: int, a: Option<int>, b: Option<int>)
    requires IsMaxTip(rows, block, a) && IsMaxTip(rows, block, b)
    ensures a == b
  {
  }

  /** The computed aggregates summarise the rows, and nothing else does. */
  lemma {:induction false} AggregatesSummarise(rows: seq<Candidate>, block: int, a: Aggregates)
    ensures Summarises(rows, block, a) <==> a == AggregatesOf(rows, block)
  {
    AggregatesOfSummarise(rows, block);
    if Summarises(rows, block, a) {
      MaxTipUnique(rows, block, a.maxTip, AggregatesOf(rows, block).maxTip);
    }
  }

  lemma {:induction false} AggregatesOfSummarise(rows: seq<Candidate>, block: int)
    ensures Summarises(rows, block, AggregatesOf(rows, block))
  {
    if rows != [] {
      var init, row := rows[..|rows| - 1], rows[|rows| - 1];
      AggregatesOfSummarise(init, block);
      assert rows == init + [row];
      CountAppend(init, row, block);
      EligibleCountAppend(init, row, block);
      MaxTipAppend(init, row, block, AggregatesOf(init, block).maxTip);
    }
  }

  ghost function Kept(c: Chain, rows: seq<Candidate>): seq<Candidate> {
    if rows == [] then []
    else
      var rest := Kept(c, rows[..|rows| - 1]);
      var row := rows[|rows| - 1];
      if Stale(c, row) then rest else rest + [row]
  }

  lemma {:induction false} KeptRows(c: Chain, rows: seq<Candidate>)
    ensures forall r :: r in Kept(c, rows) <==> r in rows && !Stale(c, r)
  {
    if rows != [] {
      var init := rows[..|rows| - 1];
      KeptRows(c, init);
      assert rows == init + [rows[|rows| - 1]];
    }
  }

  /** A block without stale rows keeps its aggregates. */
  lemma {:induction false} UntouchedAggregates(c: Chain, rows: seq<Candidate>, block: int)
    requires forall r :: r in rows && r.block == block ==> !Stale(c, r)
    ensures AggregatesOf(Kept(c, rows), block) == AggregatesOf(rows, block)
  {
    if rows != [] {
      var init := rows[..|rows| - 1];
      var row := rows[|rows| - 1];
      assert row in rows;
      UntouchedAggregates(c, init, block);
      if !Stale(c, row) {
        assert (Kept(c, init) + [row])[..|Kept(c, init)|] == Kept(c, init);
      }
    }
  }

  // ---------- the repair ----------

  datatype Tables = Tables(candidates: seq<Candidate>, builders: map<int, Builder>)

  ghost predicate Touched(c: Chain, rows: seq<Candidate>, block: int) {
    exists r :: r in rows && r.block == block && Stale(c, r)
  }

  ghost function Repaired(c: Chain, t: Tables): Tables {
    Tables(
      Kept(c, t.candidates),
      map b | b in t.builders ::
        if Touched(c, t.candidates, b) && t.builders[b].snapshot
        then t.builders[b].(aggregates := AggregatesOf(Kept(c, t.candidates), b))
        else t.builders[b])
  }

  /** The stored aggregates of a snapshot block summarise its candidate rows. */
  ghost predicate MatchesRows(t: Tables, block: int) {
    block in t.builders && t.builders[block].snapshot ==>
      Summarises(t.candidates, block, t.builders[block].aggregates)
  }

  /** MAIN RESULT. After the repair exactly the rows that were not stale remain; a touched snapshot block's
      aggregates count, sum and rank its remaining rows, and any other block's do if they did before. */
  lemma RepairIsExact(c: Chain, t: Tables, block: int)
    ensures forall r :: r in Repaired(c, t).candidates <==> r in t.candidates && !Stale(c, r)
    ensures Touched(c, t.candidates, block) || MatchesRows(t, block) ==> MatchesRows(Repaired(c, t), block)
    ensures block in Repaired(c, t).builders <==> block in t.builders
    ensures block in t.builders ==> Repaired(c, t).builders[block].snapshot == t.builders[block].snapshot
    ensures block in t.builders && !(Touched(c, t.candidates, block) && t.builders[block].snapshot) ==>
      Repaired(c, t).builders[block] == t.builders[block]
  {
    KeptRows(c, t.candidates);
    AggregatesOfSummarise(Repaired(c, t).candidates, block);
    if !Touched(c, t.candidates, block) {
      UntouchedAggregates(c, t.candidates, block);
      if block in t.builders {
        AggregatesSummarise(t.candidates, block, t.builders[block].aggregates);
      }
    }
  }

  lemma TouchedMatch(c: Chain, t: Tables)
    ensures forall b :: Touched(c, t.candidates, b) ==> MatchesRows(Repaired(c, t), b)
  {
    forall b | Touched(c, t.candidates, b) ensures MatchesRows(Repaired(c, t), b) {
      RepairIsExact(c, t, b);
    }
  }

  lemma {:induction false} NothingStaleKept(c: Chain, rows: seq<Candidate>)
    requires forall r :: r in rows ==> !Stale(c, r)
    ensures Kept(c, rows) == rows
  {
    if rows != [] {
      assert rows[|rows| - 1] in rows;
      NothingStaleKept(c, rows[..|rows| - 1]);
      assert rows == rows[..|rows| - 1] + [rows[|rows| - 1]];
    }
  }

  /** A second repair changes nothing. */
  lemma RepairIsIdempotent(c: Chain, t: Tables)
    ensures Repaired(c, Repaired(c, t)) == Repaired(c, t)
  {
    var t' := Repaired(c, t);
    KeptRows(c, t.candidates);
    NothingStaleKept(c, t'.candidates);
    forall b | b in t'.builders ensures !Touched(c, t'.candidates, b) {
    }
  }

  // ---------- the imperative form ----------

  /** The recursive query: walk the replacements of `hash`, at most 32 of them. */
  method IsStale(c: Chain, row: Candidate) returns (stale: bool)
    ensures stale <==> Stale(c, row)
  {
    assert Follow(c, row.hash, 0) == Some(row.hash);
    if ConfirmedBelow(c, row.hash, row.block) {
      assert ConfirmedAfter(c, row.hash, 0, row.block);
      return true;
    }
    var current := row.hash;
    var depth := 0;
    while depth < MAX_REPLACEMENT_STEPS && current in c.replacements
      invariant 0 <= depth <= MAX_REPLACEMENT_STEPS
      invariant Follow(c, row.hash, depth) == Some(current)
      invariant forall n :: 0 <= n <= depth ==> !ConfirmedAfter(c, row.hash, n, row.block)
      decreases MAX_REPLACEMENT_STEPS - depth
    {
      current := c.replacements[current];
      depth := depth + 1;
      if ConfirmedBelow(c, current, row.block) {
        assert ConfirmedAfter(c, row.hash, depth, row.block);
        return true;
      }
    }
    if depth < MAX_REPLACEMENT_STEPS {
      forall n | depth < n <= MAX_REPLACEMENT_STEPS ensures !ConfirmedAfter(c, row.hash, n, row.block) {
        FollowEnds(c, row.hash, depth + 1, n);
      }
    }
    return false;
  }

  /** The UPDATE of the affected builder rows. */
  function Recomputed(builders: map<int, Builder>, kept: seq<Candidate>, blocks: seq<int>): map<int, Builder> {
    map b | b in builders ::
      if b in blocks && builders[b].snapshot then builders[b].(aggregates := AggregatesOf(kept, b)) else builders[b]
  }

  lemma RecomputedNothing(builders: map<int, Builder>, kept: seq<Candidate>, blocks: seq<int>)
    requires forall b :: b !in blocks
    ensures Recomputed(builders, kept, blocks) == builders
  {
  }

  class CandidateTables {
    var candidates: seq<Candidate>
    var builders: map<int, Builder>

    ghost function View(): Tables
      reads this
    {
      Tables(candidates, builders)
    }

    /** One transaction: delete the stale rows, then recompute the aggregates of their blocks. */
    method RepairIncludedBlobInclusionCandidates(c: Chain, dbOk: bool)
      returns (ok: bool, removed: nat, blocks: seq<int>)
      modifies this
      ensures ok == dbOk
      ensures View() == if ok then Repaired(c, old(View())) else old(View())
      ensures ok ==> removed == |old(candidates)| - |candidates|
      ensures ok ==> forall b :: b in blocks ==> MatchesRows(View(), b)
      ensures ok ==> forall b :: b in blocks <==> Touched(c, old(candidates), b)
      ensures ok ==> forall i, j :: 0 <= i < j < |blocks| ==> blocks[i] != blocks[j]
    {
      ok, removed, blocks := dbOk, 0, [];
      if !dbOk {
        return;
      }
      var kept;
      kept, blocks := DeleteStale(c, candidates);
      removed := |candidates| - |kept|;
      NothingRemoved(c, candidates);
      candidates := kept;
      if removed > 0 {
        builders := Recomputed(builders, kept, blocks);
      } else {
        RecomputedNothing(builders, kept, blocks);
      }
      TouchedMatch(c, old(View()));
    }
  }

  /** DELETE ... RETURNING block_number, and the distinct blocks it returns. */
  method DeleteStale(c: Chain, rows: seq<Candidate>) returns (kept: seq<Candidate>, blocks: seq<int>)
    ensures kept == Kept(c, rows) && |kept| <= |rows|
    ensures forall b :: b in blocks <==> Touched(c, rows, b)
    ensures forall i, j :: 0 <= i < j < |blocks| ==> blocks[i] != blocks[j]
  {
    kept, blocks := [], [];
    for i := 0 to |rows|
      invariant kept == Kept(c, rows[..i])
      invariant forall b :: b in blocks <==> Touched(c, rows[..i], b)
      invariant forall j, k :: 0 <= j < k < |blocks| ==> blocks[j] != blocks[k]
    {
      var row := rows[i];
      assert rows[..i + 1] == rows[..i] + [row];
      assert rows[..i + 1][..i] == rows[..i];
      var stale := IsStale(c, row);
      forall b ensures Touched(c, rows[..i + 1], b) <==> Touched(c, rows[..i], b) || (stale && b == row.block) {
        TouchedAppend(c, rows[..i], row, b);
      }
      if !stale {
        kept := kept + [row];
      } else if row.block !in blocks {
        assert forall j :: 0 <= j < |blocks| ==> blocks[j] in blocks;
        blocks := blocks + [row.block];
      }
    }
    assert rows[..|rows|] == rows;
    NothingRemoved(c, rows);
  }

  lemma TouchedAppend(c: Chain, rows: seq<Candidate>, row: Candidate, block: int)
    ensures Touched(c, rows + [row], block) <==> Touched(c, rows, block) || (Stale(c, row) && row.block == block)
  {
    if Touched(c, rows, block) {
      var r :| r in rows && r.block == block && Stale(c, r);
      assert r in rows + [row];
    }
    if Stale(c, row) && row.block == block {
      assert row in rows + [row];
    }
  }

  lemma {:induction false} NothingRemoved(c: Chain, rows: seq<Candidate>)
    ensures |Kept(c, rows)| <= |rows|
    ensures |Kept(c, rows)| == |rows| ==> forall b :: !Touched(c, rows, b)
  {
    if rows != [] {
      var init := rows[..|rows| - 1];
      NothingRemoved(c, init);
      assert rows == init + [rows[|rows| - 1]];
      var row := rows[|rows| - 1];
      forall b ensures Touched(c, rows, b) <==> Touched(c, init, b) || (Stale(c, row) && row.block == b) {
        TouchedAppend(c, init, row, b);
      }
    }
  }
}
