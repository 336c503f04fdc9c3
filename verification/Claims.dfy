/**
 Attribution claims: how one claim is preferred over another, and the two ways a name is
 picked for an address at a block.

 The resolver takes the first covering claim of a list sorted best-first (`ClaimSortLess`).
 The painter runs over a list sorted worst-first (`ApplicationLess`) and lets each covering
 claim overwrite the one before. The two orders agree on score and start block and on
 nothing else.
 */
module Claims {
  import opened Common
  import opened Text

  datatype Claim = Claim(
    chainId: int, source: string, address: string, entityId: string, name: string, category: string,
    role: string, confidence: string, status: string, validFrom: int, validTo: Option<int>)

  // ---------- strings ----------

  predicate StringLess(a: string, b: string) {
    if b == [] then false
    else if a == [] then true
    else a[0] < b[0] || (a[0] == b[0] && StringLess(a[1..], b[1..]))
  }

  lemma {:induction false} StringLessTrichotomy(a: string, b: string)
    ensures StringLess(a, b) ==> !StringLess(b, a)
    ensures !StringLess(a, b) && !StringLess(b, a) ==> a == b
  {
    if a != [] && b != [] {
      StringLessTrichotomy(a[1..], b[1..]);
      assert a == [a[0]] + a[1..] && b == [b[0]] + b[1..];
    }
  }

  lemma {:induction false} StringLessTransitive(a: string, b: string, c: string)
    requires !StringLess(b, a) && !StringLess(c, b)
    ensures !StringLess(c, a)
  {
    if a != [] && b != [] && c != [] {
      if a[0] == b[0] && b[0] == c[0] {
        StringLessTransitive(a[1..], b[1..], c[1..]);
      }
    }
  }

  // ---------- claims ----------

  const ACTIVE := "active"
  const DISPUTED := "disputed"

  function ClaimScore(c: Claim): int {
    (var s := Lower(c.status); if s == ACTIVE then 100 else if s == DISPUTED then -100 else 0) +
    (var f := Lower(c.confidence);
     if f == "confirmed" then 30 else if f == "probable" then 20 else if f == "possible" then 10 else 0)
  }

  /** Whether the claim speaks for a block; a negative block number asks for the current attribution. */
  predicate MatchesBlock(c: Claim, block: int) {
    if EqualFold(c.status, DISPUTED) then false
    else if block < 0 then EqualFold(c.status, ACTIVE) && c.validTo.None? && c.validFrom <= 0
    else if block < c.validFrom then false
    else !(c.validTo.Some? && block > c.validTo.value)
  }

  /** Best first: score, then latest start, then open-ended, then smallest name. */
  predicate ClaimSortLess(a: Claim, b: Claim) {
    if ClaimScore(a) != ClaimScore(b) then ClaimScore(a) > ClaimScore(b)
    else if a.validFrom != b.validFrom then a.validFrom > b.validFrom
    else if a.validTo.None? != b.validTo.None? then a.validTo.None?
    else StringLess(a.name, b.name)
  }

  /** Worst first: score, then start; nothing breaks a tie. */
  predicate ApplicationLess(a: Claim, b: Claim) {
    if ClaimScore(a) != ClaimScore(b) then ClaimScore(a) < ClaimScore(b)
    else a.validFrom < b.validFrom
  }

  predicate SameRank(a: Claim, b: Claim) {
    ClaimScore(a) == ClaimScore(b) && a.validFrom == b.validFrom
  }

  // ---------- what ranks higher, read from the words of a claim ----------

  predicate Says(word: string, expected: string) {
    EqualFold(word, expected)
  }

  /** Confirmed before probable, probable before possible, possible before anything else, in any letter case. */
  predicate Surer(c: Claim, d: Claim) {
    || (Says(c.confidence, "confirmed") && !Says(d.confidence, "confirmed"))
    || (Says(c.confidence, "probable") && !Says(d.confidence, "confirmed") && !Says(d.confidence, "probable"))
    || (Says(c.confidence, "possible") && !Says(d.confidence, "confirmed") && !Says(d.confidence, "probable") &&
        !Says(d.confidence, "possible"))
  }

  /** An active claim before any other, whatever the confidences; between two of a kind the surer one. */
  predicate Outranks(c: Claim, d: Claim) {
    if Says(c.status, "active") != Says(d.status, "active") then Says(c.status, "active") else Surer(c, d)
  }

  /** Between claims of equal rank: the later start, then the open end, then the smaller name. */
  predicate Preferred(c: Claim, d: Claim) {
    || Outranks(c, d)
    || (!Outranks(d, c) &&
        (|| c.validFrom > d.validFrom
         || (c.validFrom == d.validFrom && c.validTo.None? && d.validTo.Some?)
         || (c.validFrom == d.validFrom && (c.validTo.None? <==> d.validTo.None?) && StringLess(c.name, d.name))))
  }

  /** The score orders undisputed claims exactly so. */
  lemma ScoreIffOutranks(c: Claim, d: Claim)
    requires !Says(c.status, "disputed") && !Says(d.status, "disputed")
    ensures ClaimScore(c) > ClaimScore(d) <==> Outranks(c, d)
  {
    WordsDiffer();
  }

  /** The words are in lower case and tell each other apart by their lengths and letters. */
  lemma WordsDiffer()
    ensures Lower("active") == "active" && Lower("disputed") == "disputed"
    ensures Lower("confirmed") == "confirmed" && Lower("probable") == "probable" && Lower("possible") == "possible"
    ensures "probable" != "possible"
  {
    assert "probable"[1] == 'r' && "possible"[1] == 'o';
  }

  lemma SortLessIffPreferred(c: Claim, d: Claim)
    requires !Says(c.status, "disputed") && !Says(d.status, "disputed")
    ensures ClaimSortLess(c, d) <==> Preferred(c, d)
  {
    ScoreIffOutranks(c, d);
    ScoreIffOutranks(d, c);
  }

  // ---------- which blocks a claim speaks for ----------

  /** A claim speaks for the present if and only if it is active and speaks for every block. */
  lemma CurrentIffAlways(c: Claim, now: int)
    requires now < 0
    ensures MatchesBlock(c, now) <==> Says(c.status, "active") && forall b :: b >= 0 ==> MatchesBlock(c, b)
  {
    WordsDiffer();
    if !MatchesBlock(c, now) && Says(c.status, "active") {
      var ended := c.validFrom <= 0 && c.validTo.Some? && c.validTo.value >= 0;
      assert !MatchesBlock(c, if ended then c.validTo.value + 1 else 0);
    }
  }

  /** Where one claim ends and the next one starts, each block from the first start to the last end is spoken for
      by exactly one of the two, and no block outside is. */
  lemma Handover(c: Claim, d: Claim, block: int)
    requires !Says(c.status, "disputed") && !Says(d.status, "disputed") && block >= 0
    requires c.validTo.Some? && c.validFrom <= c.validTo.value + 1 == d.validFrom
    requires d.validTo.Some? ==> d.validFrom <= d.validTo.value + 1
    ensures !(MatchesBlock(c, block) && MatchesBlock(d, block))
    ensures MatchesBlock(c, block) || MatchesBlock(d, block) <==>
      c.validFrom <= block && (d.validTo.Some? ==> block <= d.validTo.value)
  {
  }

  // ---------- stable sorting ----------

  type Order = (Claim, Claim) -> bool

  ghost predicate TotalPreorder(less: Order) {
    && (forall a, b :: less(a, b) ==> !less(b, a))
    && (forall a, b, c :: !less(b, a) && !less(c, b) ==> !less(c, a))
  }

  ghost predicate Sorted(s: seq<Claim>, less: Order) {
    forall i, j :: 0 <= i < j < |s| ==> !less(s[j], s[i])
  }

  /** Puts `x` after every element it does not precede: the step of a stable insertion sort. */
  function InsertStable(s: seq<Claim>, x: Claim, less: Order): seq<Claim> {
    if s == [] then [x]
    else
      var last := |s| - 1;
      if less(x, s[last]) then InsertStable(s[..last], x, less) + [s[last]] else s + [x]
  }

  function StableSort(s: seq<Claim>, less: Order): seq<Claim> {
    if s == [] then [] else InsertStable(StableSort(s[..|s| - 1], less), s[|s| - 1], less)
  }

  lemma ClaimSortLessIsPreorder()
    ensures TotalPreorder(ClaimSortLess)
  {
    forall a, b ensures ClaimSortLess(a, b) ==> !ClaimSortLess(b, a) {
      StringLessTrichotomy(a.name, b.name);
    }
    forall a, b, c ensures !ClaimSortLess(b, a) && !ClaimSortLess(c, b) ==> !ClaimSortLess(c, a) {
      if !ClaimSortLess(b, a) && !ClaimSortLess(c, b) && !StringLess(b.name, a.name) && !StringLess(c.name, b.name) {
        StringLessTransitive(a.name, b.name, c.name);
      }
    }
  }

  lemma ApplicationLessIsPreorder()
    ensures TotalPreorder(ApplicationLess)
  {
  }

  lemma {:induction false} InsertStableContents(s: seq<Claim>, x: Claim, less: Order)
    ensures multiset(InsertStable(s, x, less)) == multiset(s) + multiset{x}
    ensures forall c :: c in InsertStable(s, x, less) ==> c == x || c in s
  {
    if s != [] {
      var last := |s| - 1;
      assert s == s[..last] + [s[last]];
      if less(x, s[last]) {
        InsertStableContents(s[..last], x, less);
      }
    }
  }

  lemma PreorderChain(less: Order, a: Claim, b: Claim, c: Claim)
    requires TotalPreorder(less) && !less(b, a) && !less(c, b)
    ensures !less(c, a)
  {
  }

  /** What does not precede the last element of a sorted list precedes none of them. */
  lemma BehindAll(s: seq<Claim>, x: Claim, less: Order)
    requires TotalPreorder(less) && Sorted(s, less) && s != [] && !less(x, s[|s| - 1])
    ensures forall c :: c in s ==> !less(x, c)
  {
    var last := |s| - 1;
    forall i | 0 <= i < |s| ensures !less(x, s[i]) {
      if i < last {
        PreorderChain(less, s[i], s[last], x);
      }
    }
  }

  lemma {:induction false} InsertStableSorted(s: seq<Claim>, x: Claim, less: Order)
    requires TotalPreorder(less) && Sorted(s, less)
    ensures Sorted(InsertStable(s, x, less), less)
  {
    if s != [] {
      var last := |s| - 1;
      if less(x, s[last]) {
        InsertStableSorted(s[..last], x, less);
        InsertStableContents(s[..last], x, less);
        var r := InsertStable(s[..last], x, less);
        forall i | 0 <= i < |r| ensures !less(s[last], r[i]) {
          assert r[i] in r;
        }
      } else {
        BehindAll(s, x, less);
      }
    }
  }

  lemma {:induction false} StableSortSorted(s: seq<Claim>, less: Order)
    requires TotalPreorder(less)
    ensures Sorted(StableSort(s, less), less)
    ensures multiset(StableSort(s, less)) == multiset(s)
  {
    if s != [] {
      StableSortSorted(s[..|s| - 1], less);
      InsertStableSorted(StableSort(s[..|s| - 1], less), s[|s| - 1], less);
      InsertStableContents(StableSort(s[..|s| - 1], less), s[|s| - 1], less);
      assert s == s[..|s| - 1] + [s[|s| - 1]];
    }
  }

  // ---------- first and last match ----------

  type Pick = Claim -> bool

  function FirstMatch(s: seq<Claim>, p: Pick): (r: Option<Claim>)
    ensures r.Some? ==> p(r.value) && r.value in s
    ensures r.None? <==> forall c :: c in s ==> !p(c)
  {
    if s == [] then None else if p(s[0]) then Some(s[0]) else FirstMatch(s[1..], p)
  }

  function LastMatch(s: seq<Claim>, p: Pick): (r: Option<Claim>)
    ensures r.Some? ==> p(r.value) && r.value in s
    ensures r.None? <==> forall c :: c in s ==> !p(c)
  {
    if s == [] then None else if p(s[|s| - 1]) then Some(s[|s| - 1]) else LastMatch(s[..|s| - 1], p)
  }

  lemma {:induction false} FirstMatchAppend(a: seq<Claim>, b: seq<Claim>, p: Pick)
    ensures FirstMatch(a + b, p) == if FirstMatch(a, p).Some? then FirstMatch(a, p) else FirstMatch(b, p)
  {
    if a == [] {
      assert a + b == b;
    } else {
      assert (a + b)[1..] == a[1..] + b;
      FirstMatchAppend(a[1..], b, p);
    }
  }

  lemma {:induction false} LastMatchAppend(a: seq<Claim>, x: Claim, p: Pick)
    ensures LastMatch(a + [x], p) == if p(x) then Some(x) else LastMatch(a, p)
  {
    assert (a + [x])[..|a|] == a;
  }

  /** Scanning a list once, keeping the claim that strictly precedes the best so far. */
  function BestSoFar(s: seq<Claim>, p: Pick, less: Order): Option<Claim> {
    if s == [] then None
    else
      var best := BestSoFar(s[..|s| - 1], p, less);
      var c := s[|s| - 1];
      if p(c) && (best.None? || less(c, best.value)) then Some(c) else best
  }

  /** Scanning a list once, replacing the claim on top unless the new one strictly precedes it. */
  function TopSoFar(s: seq<Claim>, p: Pick, less: Order): Option<Claim> {
    if s == [] then None
    else
      var top := TopSoFar(s[..|s| - 1], p, less);
      var c := s[|s| - 1];
      if p(c) && (top.None? || !less(c, top.value)) then Some(c) else top
  }

  lemma {:induction false} FirstMatchInsert(s: seq<Claim>, x: Claim, p: Pick, less: Order)
    requires TotalPreorder(less) && Sorted(s, less)
    ensures var m := FirstMatch(s, p);
      FirstMatch(InsertStable(s, x, less), p) == if p(x) && (m.None? || less(x, m.value)) then Some(x) else m
  {
    if s != [] {
      var last := |s| - 1;
      assert s == s[..last] + [s[last]];
      FirstMatchAppend(s[..last], [s[last]], p);
      if less(x, s[last]) {
        FirstMatchInsert(s[..last], x, p, less);
        FirstMatchAppend(InsertStable(s[..last], x, less), [s[last]], p);
      } else {
        FirstMatchAppend(s, [x], p);
        BehindAll(s, x, less);
      }
    }
  }

  lemma {:induction false} LastMatchInsert(s: seq<Claim>, x: Claim, p: Pick, less: Order)
    requires TotalPreorder(less) && Sorted(s, less)
    ensures var m := LastMatch(s, p);
      LastMatch(InsertStable(s, x, less), p) == if p(x) && (m.None? || !less(x, m.value)) then Some(x) else m
  {
    if s != [] {
      var last := |s| - 1;
      if less(x, s[last]) {
        LastMatchInsert(s[..last], x, p, less);
        LastMatchAppend(InsertStable(s[..last], x, less), s[last], p);
      } else {
        LastMatchAppend(s, x, p);
        BehindAll(s, x, less);
      }
    }
  }

  /** The first match of the sorted list is the best of the unsorted one. */
  lemma {:induction false} FirstOfSortedIsBest(s: seq<Claim>, p: Pick, less: Order)
    requires TotalPreorder(less)
    ensures FirstMatch(StableSort(s, less), p) == BestSoFar(s, p, less)
  {
    if s != [] {
      FirstOfSortedIsBest(s[..|s| - 1], p, less);
      StableSortSorted(s[..|s| - 1], less);
      FirstMatchInsert(StableSort(s[..|s| - 1], less), s[|s| - 1], p, less);
    }
  }

  /** The last match of the sorted list is what overwriting in list order leaves on top. */
  lemma {:induction false} LastOfSortedIsTop(s: seq<Claim>, p: Pick, less: Order)
    requires TotalPreorder(less)
    ensures LastMatch(StableSort(s, less), p) == TopSoFar(s, p, less)
  {
    if s != [] {
      LastOfSortedIsTop(s[..|s| - 1], p, less);
      StableSortSorted(s[..|s| - 1], less);
      LastMatchInsert(StableSort(s[..|s| - 1], less), s[|s| - 1], p, less);
    }
  }

  /** `c` is a preferred match: no match of the list strictly precedes it. */
  ghost predicate IsBest(s: seq<Claim>, p: Pick, less: Order, c: Claim) {
    c in s && p(c) && forall d :: d in s && p(d) ==> !less(d, c)
  }

  lemma {:induction false} BestSoFarIsBest(s: seq<Claim>, p: Pick, less: Order)
    requires TotalPreorder(less)
    ensures var r := BestSoFar(s, p, less);
      if r.Some? then IsBest(s, p, less, r.value) else forall c :: c in s ==> !p(c)
  {
    if s != [] {
      var s' := s[..|s| - 1];
      BestSoFarIsBest(s', p, less);
      assert s == s' + [s[|s| - 1]];
      var best := BestSoFar(s', p, less);
      var r := BestSoFar(s, p, less);
      if r.Some? && r != best && best.Some? {
        forall d | d in s && p(d) ensures !less(d, r.value) {
          assert !less(best.value, r.value);
        }
      }
    }
  }

  /** `j` is the last of the matches that precede no other match. */
  ghost predicate IsTop(s: seq<Claim>, p: Pick, less: Order, j: int) {
    && 0 <= j < |s| && p(s[j])
    && (forall i :: 0 <= i < |s| && p(s[i]) ==> !less(s[j], s[i]))
    && (forall i :: j < i < |s| && p(s[i]) ==> less(s[i], s[j]))
  }

  lemma {:induction false} TopSoFarIsTop(s: seq<Claim>, p: Pick, less: Order)
    requires TotalPreorder(less)
    ensures var r := TopSoFar(s, p, less);
      if r.None? then forall c :: c in s ==> !p(c)
      else exists j :: IsTop(s, p, less, j) && s[j] == r.value
  {
    if s != [] {
      var last := |s| - 1;
      var s' := s[..last];
      TopSoFarIsTop(s', p, less);
      assert s == s' + [s[last]];
      var top := TopSoFar(s', p, less);
      if top.Some? {
        var j :| IsTop(s', p, less, j) && s'[j] == top.value;
        if p(s[last]) && !less(s[last], top.value) {
          forall i | 0 <= i < |s| && p(s[i]) ensures !less(s[last], s[i]) {
            if i < last {
              assert s[i] == s'[i] && !less(s'[j], s'[i]);
            }
          }
          assert IsTop(s, p, less, last);
        } else {
          assert s[j] == top.value;
          forall i | 0 <= i < |s| && p(s[i]) ensures !less(s[j], s[i]) && (j < i ==> less(s[i], s[j])) {
            if i < last {
              assert s[i] == s'[i];
            }
          }
          assert IsTop(s, p, less, j);
        }
      } else if p(s[last]) {
        forall i | 0 <= i < last ensures !p(s[i]) {
          assert s[i] == s'[i] && s'[i] in s';
        }
        assert IsTop(s, p, less, last);
      }
    }
  }

  // ---------- the resolver and the painter ----------

  /** `c` speaks for `address` at `block`. */
  predicate Covers(c: Claim, address: string, block: int) {
    c.address == address && MatchesBlock(c, block)
  }

  function NameOf(c: Option<Claim>): string {
    if c.Some? then c.value.name else ""
  }

  /** The claims of one address, in list order. */
  function ForAddress(claims: seq<Claim>, address: string): (r: seq<Claim>)
    ensures forall c :: c in r <==> c in claims && c.address == address
  {
    if claims == [] then []
    else
      var last := claims[|claims| - 1];
      assert claims == claims[..|claims| - 1] + [last];
      var rest := ForAddress(claims[..|claims| - 1], address);
      if last.address == address then rest + [last] else rest
  }

  /** The name the service answers with: first covering claim of the address's best-first list. */
  function ResolvedName(claims: seq<Claim>, address: string, block: int): string {
    NameOf(FirstMatch(StableSort(ForAddress(claims, address), ClaimSortLess), c => MatchesBlock(c, block)))
  }

  /** The name repainting leaves on a row: last covering claim in application order. */
  function PaintedName(claims: seq<Claim>, address: string, block: int): string {
    if block < 0 then ""
    else NameOf(LastMatch(StableSort(claims, ApplicationLess), c => Covers(c, address, block)))
  }

  lemma {:induction false} BestForAddress(claims: seq<Claim>, address: string, block: int)
    ensures BestSoFar(ForAddress(claims, address), c => MatchesBlock(c, block), ClaimSortLess) ==
      BestSoFar(claims, c => Covers(c, address, block), ClaimSortLess)
  {
    if claims != [] {
      var rest := claims[..|claims| - 1];
      BestForAddress(rest, address, block);
      if claims[|claims| - 1].address == address {
        var f := ForAddress(rest, address);
        assert (f + [claims[|claims| - 1]])[..|f|] == f;
      }
    }
  }

  /** Resolving by sorted lookup is picking the best covering claim. */
  lemma ResolvedIsBest(claims: seq<Claim>, address: string, block: int)
    ensures ResolvedName(claims, address, block) ==
      NameOf(BestSoFar(claims, c => Covers(c, address, block), ClaimSortLess))
  {
    ClaimSortLessIsPreorder();
    FirstOfSortedIsBest(ForAddress(claims, address), c => MatchesBlock(c, block), ClaimSortLess);
    BestForAddress(claims, address, block);
  }

  /** `c` covers the row and no other covering claim is preferred to it, in the words of the claims. */
  ghost predicate IsPreferred(claims: seq<Claim>, address: string, block: int, c: Claim) {
    && c in claims && Covers(c, address, block)
    && forall d :: d in claims && Covers(d, address, block) ==> !Preferred(d, c)
  }

  /** MAIN RESULT. The resolver answers with the name of a covering claim that no other is preferred to: active
      before not, then the surer, the later, the open-ended, the smaller name. Without a covering claim it
      answers with no name. */
  lemma ResolvedIsPreferred(claims: seq<Claim>, address: string, block: int)
    ensures if exists c :: c in claims && Covers(c, address, block) then
        exists c :: IsPreferred(claims, address, block, c) && ResolvedName(claims, address, block) == c.name
      else ResolvedName(claims, address, block) == ""
    ensures forall c :: IsPreferred(claims, address, block, c) ==> ResolvedName(claims, address, block) == c.name
  {
    var p := (c: Claim) => Covers(c, address, block);
    ClaimSortLessIsPreorder();
    ResolvedIsBest(claims, address, block);
    BestSoFarIsBest(claims, p, ClaimSortLess);
    WordsDiffer();
    forall c, d | Covers(c, address, block) && Covers(d, address, block)
      ensures ClaimSortLess(c, d) <==> Preferred(c, d)
    {
      SortLessIffPreferred(c, d);
    }
    var best := BestSoFar(claims, p, ClaimSortLess);
    if best.Some? {
      assert IsPreferred(claims, address, block, best.value);
      forall c | IsPreferred(claims, address, block, c) ensures c.name == best.value.name {
        StringLessTrichotomy(c.name, best.value.name);
      }
    }
  }

  /** A covering claim that outranks every other covering claim, in status and confidence, gives the name. */
  lemma OutrankingClaimResolves(claims: seq<Claim>, address: string, block: int, c: Claim)
    requires c in claims && Covers(c, address, block)
    requires forall d :: d in claims && Covers(d, address, block) && d != c ==> Outranks(c, d)
    ensures ResolvedName(claims, address, block) == c.name
  {
    ResolvedIsPreferred(claims, address, block);
    StringLessTrichotomy(c.name, c.name);
    assert IsPreferred(claims, address, block, c);
  }

  /** The resolver's answer does not depend on the order in which the claims arrive. */
  lemma ResolvedNameOrderIndependent(a: seq<Claim>, b: seq<Claim>, address: string, block: int)
    requires multiset(a) == multiset(b)
    ensures ResolvedName(a, address, block) == ResolvedName(b, address, block)
  {
    ClaimSortLessIsPreorder();
    ResolvedIsBest(a, address, block);
    ResolvedIsBest(b, address, block);
    var p := (c: Claim) => Covers(c, address, block);
    BestSoFarIsBest(a, p, ClaimSortLess);
    BestSoFarIsBest(b, p, ClaimSortLess);
    assert forall c :: c in a <==> c in multiset(a);
    assert forall c :: c in b <==> c in multiset(b);
    var ca, cb := BestSoFar(a, p, ClaimSortLess), BestSoFar(b, p, ClaimSortLess);
    if ca.Some? && cb.Some? {
      StringLessTrichotomy(ca.value.name, cb.value.name);
    }
  }

  /** `i` is the first claim of the list that covers the row. */
  ghost predicate FirstCovering(claims: seq<Claim>, address: string, block: int, i: int) {
    0 <= i < |claims| && Covers(claims[i], address, block) &&
    forall k :: 0 <= k < i ==> !Covers(claims[k], address, block)
  }

  /** `j` is the last covering claim with the rank of claim `i`. */
  ghost predicate LastTied(claims: seq<Claim>, address: string, block: int, i: int, j: int) {
    0 <= i < |claims| && 0 <= j < |claims| && Covers(claims[j], address, block) && SameRank(claims[i], claims[j]) &&
    forall k :: j < k < |claims| && Covers(claims[k], address, block) ==> !SameRank(claims[i], claims[k])
  }

  /** The extremes of the leading tie carry one name. A list sorted best-first can be checked for this
      before it is applied. */
  ghost predicate LeadersAgree(claims: seq<Claim>, address: string, block: int) {
    forall i, j :: FirstCovering(claims, address, block, i) && LastTied(claims, address, block, i, j) ==>
      claims[i].name == claims[j].name
  }

  lemma {:induction false} FirstCoveringIsBest(claims: seq<Claim>, address: string, block: int, i: int)
    requires Sorted(claims, ClaimSortLess) && FirstCovering(claims, address, block, i)
    ensures BestSoFar(claims, c => Covers(c, address, block), ClaimSortLess) == Some(claims[i])
  {
    var p := (c: Claim) => Covers(c, address, block);
    var last := |claims| - 1;
    if i < last {
      FirstCoveringIsBest(claims[..last], address, block, i);
    } else {
      NothingCovering(claims[..last], address, block);
    }
  }

  lemma {:induction false} NothingCovering(claims: seq<Claim>, address: string, block: int)
    requires forall k :: 0 <= k < |claims| ==> !Covers(claims[k], address, block)
    ensures BestSoFar(claims, c => Covers(c, address, block), ClaimSortLess) == None
    ensures TopSoFar(claims, c => Covers(c, address, block), ApplicationLess) == None
  {
    if claims != [] {
      NothingCovering(claims[..|claims| - 1], address, block);
    }
  }

  /** In a best-first list, the painter's claim is the last one tied with the resolver's. */
  lemma TopIsLastTied(claims: seq<Claim>, address: string, block: int, i: int) returns (j: int)
    requires Sorted(claims, ClaimSortLess) && FirstCovering(claims, address, block, i)
    ensures LastTied(claims, address, block, i, j)
    ensures TopSoFar(claims, c => Covers(c, address, block), ApplicationLess) == Some(claims[j])
  {
    var p := (c: Claim) => Covers(c, address, block);
    ApplicationLessIsPreorder();
    TopSoFarIsTop(claims, p, ApplicationLess);
    assert p(claims[i]) && claims[i] in claims;
    var r := TopSoFar(claims, p, ApplicationLess);
    j :| IsTop(claims, p, ApplicationLess, j) && claims[j] == r.value;
    TopTiesWithFirst(claims, address, block, i, j);
  }

  lemma TopTiesWithFirst(claims: seq<Claim>, address: string, block: int, i: int, j: int)
    requires Sorted(claims, ClaimSortLess) && FirstCovering(claims, address, block, i)
    requires IsTop(claims, c => Covers(c, address, block), ApplicationLess, j)
    ensures LastTied(claims, address, block, i, j)
  {
    assert Covers(claims[j], address, block) && !ApplicationLess(claims[j], claims[i]);
    assert i <= j;
    assert i < j ==> !ClaimSortLess(claims[j], claims[i]);
    assert SameRank(claims[i], claims[j]);
  }

  /** MAIN RESULT. For claims in the order the fetch leaves them (best first), repainting gives a row
      the resolver's name if and only if the extremes of its leading tie carry one name. */
  lemma PaintedIsResolvedIff(claims: seq<Claim>, address: string, block: int)
    requires Sorted(claims, ClaimSortLess) && block >= 0
    ensures PaintedName(claims, address, block) == ResolvedName(claims, address, block) <==>
      LeadersAgree(claims, address, block)
  {
    var p := (c: Claim) => Covers(c, address, block);
    ResolvedIsBest(claims, address, block);
    ApplicationLessIsPreorder();
    LastOfSortedIsTop(claims, p, ApplicationLess);
    if forall k :: 0 <= k < |claims| ==> !Covers(claims[k], address, block) {
      NothingCovering(claims, address, block);
    } else {
      var i := FirstCoveringExists(claims, address, block);
      FirstCoveringIsBest(claims, address, block, i);
      var j := TopIsLastTied(claims, address, block, i);
    }
  }

  lemma FirstCoveringExists(claims: seq<Claim>, address: string, block: int) returns (i: int)
    requires exists k :: 0 <= k < |claims| && Covers(claims[k], address, block)
    ensures FirstCovering(claims, address, block, i)
  {
    i := 0;
    while !Covers(claims[i], address, block)
      invariant 0 <= i < |claims|
      invariant forall k :: 0 <= k < i ==> !Covers(claims[k], address, block)
      decreases |claims| - i
    {
      i := i + 1;
    }
  }

  /** No two claims that cover the row together tie on rank with different names. */
  ghost predicate NoTie(claims: seq<Claim>, address: string, block: int) {
    forall c, d ::
      c in claims && d in claims && Covers(c, address, block) && Covers(d, address, block) && SameRank(c, d) ==>
        c.name == d.name
  }

  /** Without ties the two resolutions agree for claims in any order at all. */
  lemma NoTieAgrees(claims: seq<Claim>, address: string, block: int)
    requires block >= 0 && NoTie(claims, address, block)
    ensures PaintedName(claims, address, block) == ResolvedName(claims, address, block)
  {
    var p := (c: Claim) => Covers(c, address, block);
    ClaimSortLessIsPreorder();
    ApplicationLessIsPreorder();
    ResolvedIsBest(claims, address, block);
    LastOfSortedIsTop(claims, p, ApplicationLess);
    BestSoFarIsBest(claims, p, ClaimSortLess);
    TopSoFarIsTop(claims, p, ApplicationLess);
    var best, top := BestSoFar(claims, p, ClaimSortLess), TopSoFar(claims, p, ApplicationLess);
    if best.Some? && top.Some? {
      var i :| 0 <= i < |claims| && claims[i] == best.value;
      assert SameRank(best.value, top.value);
    }
  }

  /** Two equally ranked claims of two entities. */
  const ALICE := Claim(1, "blob-list", "0xaa", "e1", "alice", "", "", "confirmed", "active", 0, None)
  const BOB := Claim(1, "blob-list", "0xaa", "e2", "bob", "", "", "confirmed", "active", 0, None)

  lemma AliceAndBobTie()
    ensures Covers(ALICE, "0xaa", 5) && Covers(BOB, "0xaa", 5) && SameRank(ALICE, BOB)
    ensures ClaimSortLess(ALICE, BOB) && !ClaimSortLess(BOB, ALICE)
  {
    assert Lower("active")[0] != Lower("disputed")[0];
    assert StringLess("alice", "bob");
    assert !StringLess("bob", "alice");
  }

  /** With that tie the resolver answers "alice" and repainting leaves "bob". */
  lemma TieDisagrees()
    ensures Sorted([ALICE, BOB], ClaimSortLess)
    ensures ResolvedName([ALICE, BOB], "0xaa", 5) == "alice" && PaintedName([ALICE, BOB], "0xaa", 5) == "bob"
  {
    var claims := [ALICE, BOB];
    AliceAndBobTie();
    ResolvedIsBest(claims, "0xaa", 5);
    ApplicationLessIsPreorder();
    LastOfSortedIsTop(claims, c => Covers(c, "0xaa", 5), ApplicationLess);
    FirstCoveringIsBest(claims, "0xaa", 5, 0);
    var j := TopIsLastTied(claims, "0xaa", 5, 0);
    assert claims[1] == BOB;
  }
}
