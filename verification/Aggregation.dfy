/** Sums over table rows, time buckets, and the law that makes pre-aggregation exact. */
module Aggregation {
  // ---------- time buckets ----------

  /** Start of the bucket of `size` seconds that contains `t`. */
  function Floor(t: int, size: int): int
    requires size > 0
  {
    t / size * size
  }

  predicate Aligned(t: int, size: int)
    requires size > 0
  {
    t % size == 0
  }

  lemma FloorFacts(t: int, size: int)
    requires size > 0
    ensures Floor(t, size) <= t < Floor(t, size) + size
    ensures Aligned(Floor(t, size), size)
  {
    MultipleIsAligned(t / size, size);
  }

  lemma MultipleIsAligned(q: int, size: int)
    requires size > 0
    ensures (q * size) % size == 0
  {
    UniqueQuotient(q, 0, size);
  }

  lemma Multiply(a: int, b: int, c: int)
    requires a <= b && c >= 0
    ensures a * c <= b * c
  {
  }

  lemma UniqueQuotient(q: int, r: int, size: int)
    requires size > 0 && 0 <= r < size
    ensures (q * size + r) / size == q && (q * size + r) % size == r
  {
    var x := q * size + r;
    var q' := x / size;
    assert x == q' * size + x % size;
    if q' > q {
      Multiply(q + 1, q', size);
    } else if q' < q {
      Multiply(q' + 1, q, size);
    }
  }

  /** An aligned time is at or before `t` exactly when it is at or before the bucket of `t`. */
  lemma AlignedBound(k: int, t: int, size: int)
    requires size > 0 && Aligned(k, size)
    ensures k <= t <==> k <= Floor(t, size)
  {
    FloorFacts(t, size);
    if k <= t {
      var a, b := k / size, t / size;
      assert k == a * size;
      if a > b {
        Multiply(b + 1, a, size);
      } else {
        Multiply(a, b, size);
      }
    }
  }

  lemma AlignedDivides(k: int, fine: int, coarse: int)
    requires fine > 0 && coarse > 0 && coarse % fine == 0 && Aligned(k, coarse)
    ensures Aligned(k, fine)
  {
    var m := coarse / fine;
    assert coarse == m * fine;
    assert k == (k / coarse) * coarse;
    assert k == ((k / coarse) * m) * fine;
    MultipleIsAligned((k / coarse) * m, fine);
  }

  /** Flooring to a fine bucket first does not change the coarse bucket. */
  lemma NestedFloor(t: int, fine: int, coarse: int)
    requires fine > 0 && coarse > 0 && coarse % fine == 0
    ensures Floor(Floor(t, fine), coarse) == Floor(t, coarse)
  {
    var k := Floor(t, coarse);
    var f := Floor(t, fine);
    FloorFacts(t, coarse);
    FloorFacts(t, fine);
    AlignedDivides(k, fine, coarse);
    AlignedBound(k, t, fine);
    assert k <= f < k + coarse;
    UniqueQuotient(t / coarse, f - k, coarse);
  }

  // ---------- sums ----------

  ghost function Sum<R>(rows: seq<R>, p: R -> bool, f: R -> int): int {
    if rows == [] then 0
    else Sum(rows[..|rows| - 1], p, f) + if p(rows[|rows| - 1]) then f(rows[|rows| - 1]) else 0
  }

  lemma {:induction false} SumCongruent<R>(rows: seq<R>, p: R -> bool, q: R -> bool, f: R -> int, g: R -> int)
    requires forall r :: r in rows ==> p(r) == q(r) && (p(r) ==> f(r) == g(r))
    ensures Sum(rows, p, f) == Sum(rows, q, g)
  {
    if rows != [] {
      SumCongruent(rows[..|rows| - 1], p, q, f, g);
    }
  }

  lemma {:induction false} SumNone<R>(rows: seq<R>, p: R -> bool, f: R -> int)
    requires forall r :: r in rows ==> !p(r)
    ensures Sum(rows, p, f) == 0
  {
    if rows != [] {
      SumNone(rows[..|rows| - 1], p, f);
    }
  }

  lemma {:induction false} SumSplit<R>(rows: seq<R>, p: R -> bool, q: R -> bool, either: R -> bool, f: R -> int)
    requires forall r :: r in rows ==> (either(r) <==> p(r) || q(r)) && !(p(r) && q(r))
    ensures Sum(rows, either, f) == Sum(rows, p, f) + Sum(rows, q, f)
  {
    if rows != [] {
      SumSplit(rows[..|rows| - 1], p, q, either, f);
    }
  }

  lemma {:induction false} SumScaled<R>(rows: seq<R>, p: R -> bool, f: R -> int, c: int)
    ensures Sum(rows, p, (r: R) => c * f(r)) == c * Sum(rows, p, f)
  {
    if rows != [] {
      var last := rows[|rows| - 1];
      SumScaled(rows[..|rows| - 1], p, f, c);
      var sum := Sum(rows[..|rows| - 1], p, f);
      assert p(last) ==> c * (sum + f(last)) == c * sum + c * f(last);
    }
  }

  /** Summing ones counts the selected positions. */
  lemma {:induction false} SumOfOnes<R>(rows: seq<R>, p: R -> bool, one: R -> int)
    requires forall r :: one(r) == 1
    ensures Sum(rows, p, one) == |set i: nat | i < |rows| && p(rows[i])|
  {
    var positions := set i: nat | i < |rows| && p(rows[i]);
    if rows == [] {
      assert positions == {};
    } else {
      var last: nat := |rows| - 1;
      SumOfOnes(rows[..last], p, one);
      var before := set i: nat | i < |rows[..last]| && p(rows[..last][i]);
      assert positions == if p(rows[last]) then before + {last} else before;
    }
  }

  // ---------- selected rows ----------

  /** The rows a selection keeps. */
  ghost function Picked<R>(rows: seq<R>, p: R -> bool): multiset<R> {
    if rows == [] then multiset{}
    else
      var last := rows[|rows| - 1];
      Picked(rows[..|rows| - 1], p) + if p(last) then multiset{last} else multiset{}
  }

  lemma {:induction false} PickedCongruent<R>(rows: seq<R>, p: R -> bool, q: R -> bool)
    requires forall r :: r in rows ==> p(r) == q(r)
    ensures Picked(rows, p) == Picked(rows, q)
  {
    if rows != [] {
      PickedCongruent(rows[..|rows| - 1], p, q);
    }
  }

  /** A selected row is picked as often as it is there, and no other is. */
  lemma {:induction false} PickedCount<R>(rows: seq<R>, p: R -> bool, r: R)
    ensures Picked(rows, p)[r] == if p(r) then multiset(rows)[r] else 0
  {
    if rows != [] {
      PickedCount(rows[..|rows| - 1], p, r);
      assert rows == rows[..|rows| - 1] + [rows[|rows| - 1]];
    }
  }

  lemma {:induction false} PickedNone<R>(rows: seq<R>, p: R -> bool)
    requires forall r :: r in rows ==> !p(r)
    ensures Picked(rows, p) == multiset{}
  {
    if rows != [] {
      PickedNone(rows[..|rows| - 1], p);
    }
  }

  // ---------- pre-aggregation ----------

  /** Selecting rows by one value of their key, and by a property of it. */
  function KeyIs<R, K(==)>(kr: R -> K, k: K): R -> bool {
    (r: R) => kr(r) == k
  }

  function OnKey<R, K>(kr: R -> K, p: K -> bool): R -> bool {
    (r: R) => p(kr(r))
  }

  ghost predicate KeyIn<G, K>(groups: seq<G>, kg: G -> K, k: K) {
    exists i :: 0 <= i < |groups| && kg(groups[i]) == k
  }

  ghost predicate KeysDistinct<G, K>(groups: seq<G>, kg: G -> K) {
    forall i, j :: 0 <= i < j < |groups| ==> kg(groups[i]) != kg(groups[j])
  }

  lemma {:induction false} GroupedPrefix<R, G, K>(
    rows: seq<R>, kr: R -> K, f: R -> int, groups: seq<G>, kg: G -> K, g: G -> int, p: K -> bool)
    requires KeysDistinct(groups, kg)
    requires forall i :: 0 <= i < |groups| && p(kg(groups[i])) ==>
      g(groups[i]) == Sum(rows, KeyIs(kr, kg(groups[i])), f)
    ensures Sum(groups, OnKey(kg, p), g) == Sum(rows, r => p(kr(r)) && KeyIn(groups, kg, kr(r)), f)
  {
    if groups == [] {
      SumNone(rows, r => p(kr(r)) && KeyIn(groups, kg, kr(r)), f);
    } else {
      var init := groups[..|groups| - 1];
      var x := groups[|groups| - 1];
      GroupedPrefix(rows, kr, f, init, kg, g, p);
      var old0 := (r: R) => p(kr(r)) && KeyIn(init, kg, kr(r));
      var new0 := (r: R) => p(kr(r)) && kr(r) == kg(x);
      var all := (r: R) => p(kr(r)) && KeyIn(groups, kg, kr(r));
      forall r ensures all(r) <==> old0(r) || new0(r) {
        KeyInSplit(groups, kg, kr(r));
      }
      forall r ensures !(old0(r) && new0(r)) {
        if KeyIn(init, kg, kr(r)) {
          var i :| 0 <= i < |init| && kg(init[i]) == kr(r);
          assert kg(groups[i]) != kg(groups[|groups| - 1]);
        }
      }
      SumSplit(rows, old0, new0, all, f);
      if p(kg(x)) {
        SumCongruent(rows, new0, KeyIs(kr, kg(x)), f, f);
      } else {
        SumNone(rows, new0, f);
      }
    }
  }

  lemma KeyInSplit<G, K>(groups: seq<G>, kg: G -> K, k: K)
    requires groups != []
    ensures KeyIn(groups, kg, k) <==> KeyIn(groups[..|groups| - 1], kg, k) || kg(groups[|groups| - 1]) == k
  {
    var init := groups[..|groups| - 1];
    if KeyIn(groups, kg, k) {
      var i :| 0 <= i < |groups| && kg(groups[i]) == k;
      assert i < |init| ==> init[i] == groups[i];
    }
    if KeyIn(init, kg, k) {
      var i :| 0 <= i < |init| && kg(init[i]) == k;
      assert groups[i] == init[i];
    }
  }

  /** MAIN RESULT. Summing stored groups equals summing the rows behind them, for any selection made on the
      key: groups with distinct keys, each the sum of its rows, covering every selected row. */
  lemma RegroupingIsExact<R, G, K>(
    rows: seq<R>, kr: R -> K, f: R -> int, groups: seq<G>, kg: G -> K, g: G -> int, p: K -> bool)
    requires KeysDistinct(groups, kg)
    requires forall i :: 0 <= i < |groups| && p(kg(groups[i])) ==>
      g(groups[i]) == Sum(rows, KeyIs(kr, kg(groups[i])), f)
    requires forall r :: r in rows && p(kr(r)) ==> KeyIn(groups, kg, kr(r))
    ensures Sum(groups, OnKey(kg, p), g) == Sum(rows, OnKey(kr, p), f)
  {
    GroupedPrefix(rows, kr, f, groups, kg, g, p);
    SumCongruent(rows, r => p(kr(r)) && KeyIn(groups, kg, kr(r)), OnKey(kr, p), f, f);
  }
}
