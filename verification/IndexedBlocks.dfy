/**
 Finding the first missing block of a range. The query never enumerates the range: it looks
 at the indexed blocks only, through three kinds of candidate, and takes the least.
 */
module IndexedBlocks {

  /** The indexed rows the query's window function runs over. */
  ghost function Rows(indexed: set<int>, start: int, target: int): set<int> {
    set b | b in indexed && start <= b <= target
  }

  /** LEAD(block_number) OVER (ORDER BY block_number). */
  ghost predicate IsLead(rows: set<int>, b: int, next: int) {
    next in rows && next > b && forall m :: m in rows && m > b ==> next <= m
  }

  /** The start itself, the block behind one whose successor is not adjacent, or the block behind the last one. */
  ghost predicate IsCandidate(indexed: set<int>, start: int, target: int, x: int) {
    var rows := Rows(indexed, start, target);
    || (x == start && start !in indexed)
    || (exists b, next :: b in rows && x == b + 1 && IsLead(rows, b, next) && next > x)
    || (x - 1 in rows && x - 1 < target && forall m :: m in rows ==> m <= x - 1)
  }

  /** COALESCE(MIN(block_number), target + 1), behind the early return for an empty range. */
  ghost predicate IsFirstUnindexedBlock(indexed: set<int>, start: int, target: int, r: int) {
    if start > target then r == target + 1
    else if exists x :: IsCandidate(indexed, start, target, x) then
      IsCandidate(indexed, start, target, r) && forall x :: IsCandidate(indexed, start, target, x) ==> r <= x
    else r == target + 1
  }

  /** Specification: the least block of the range that is not indexed, or one past the range. */
  ghost predicate IsFirstGap(indexed: set<int>, start: int, target: int, r: int) {
    if start > target then r == target + 1
    else
      && start <= r <= target + 1
      && (forall x :: start <= x < r ==> x in indexed)
      && (r <= target ==> r !in indexed)
  }

  lemma CandidatesAreGaps(indexed: set<int>, start: int, target: int, x: int)
    requires start <= target && IsCandidate(indexed, start, target, x)
    ensures start <= x <= target && x !in indexed
  {
    var rows := Rows(indexed, start, target);
    assert x in indexed && start <= x <= target <==> x in rows;
  }

  lemma FirstGapIsCandidate(indexed: set<int>, start: int, target: int, r: int)
    requires start <= target && IsFirstGap(indexed, start, target, r) && r <= target
    ensures IsCandidate(indexed, start, target, r)
  {
    var rows := Rows(indexed, start, target);
    if r > start {
      assert r - 1 in rows;
      if exists m :: m in rows && m > r - 1 {
        var m :| m in rows && m > r - 1;
        var next := LeadExists(rows, r - 1, m);
        assert next != r;
      }
    }
  }

  lemma {:induction false} LeadExists(rows: set<int>, b: int, m: int) returns (next: int)
    requires m in rows && m > b
    ensures IsLead(rows, b, next)
    decreases m - b
  {
    if exists k :: k in rows && b < k < m {
      var k :| k in rows && b < k < m;
      next := LeadExists(rows, b, k);
    } else {
      next := m;
    }
  }

  lemma {:induction false} FirstGapExists(indexed: set<int>, start: int, target: int) returns (r: int)
    requires start <= target
    ensures IsFirstGap(indexed, start, target, r)
    decreases target - start
  {
    if start !in indexed {
      r := start;
    } else if start == target {
      r := target + 1;
    } else {
      r := FirstGapExists(indexed, start + 1, target);
    }
  }

  /** MAIN RESULT. The three-arm query returns exactly the first gap. */
  lemma QueryIsFirstGap(indexed: set<int>, start: int, target: int, r: int)
    ensures IsFirstUnindexedBlock(indexed, start, target, r) <==> IsFirstGap(indexed, start, target, r)
  {
    if start <= target {
      var gap := FirstGapExists(indexed, start, target);
      forall x | IsCandidate(indexed, start, target, x) ensures gap <= x && x <= target && x !in indexed {
        CandidatesAreGaps(indexed, start, target, x);
      }
      if gap <= target {
        FirstGapIsCandidate(indexed, start, target, gap);
      }
      assert IsFirstGap(indexed, start, target, r) ==> r == gap;
      assert IsFirstUnindexedBlock(indexed, start, target, r) ==> r == gap;
    }
  }
}
