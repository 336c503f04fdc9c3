/**
 Wildcard patterns for allowed CORS origins and headers. The code splits the pattern at its
 stars and searches greedily, leftmost first, without ever going back; the specification
 tries every way to spend each star.
 */
module Wildcard {
  import opened Common
  import opened Text

  // ---------- specification ----------

  /** Each star stands for any string, every other character for itself. */
  ghost predicate Matches(pattern: string, value: string)
    decreases |pattern|
  {
    if pattern == [] then value == []
    else if pattern[0] == '*' then exists k :: 0 <= k <= |value| && Matches(pattern[1..], value[k..])
    else value != [] && value[0] == pattern[0] && Matches(pattern[1..], value[1..])
  }

  /** The literal parts between stars occur in `value` in this order, the last one at its end. */
  ghost predicate PartsMatch(parts: seq<string>, value: string)
    requires parts != []
  {
    if |parts| == 1 then HasSuffix(value, parts[0])
    else exists k :: OccursAt(value, parts[0], k) && PartsMatch(parts[1..], value[k + |parts[0]|..])
  }

  // ---------- the code ----------

  /** strings.Split at the stars. */
  function Split(pattern: string): (parts: seq<string>)
    ensures parts != []
    ensures forall p :: p in parts ==> '*' !in p
  {
    if pattern == [] then [[]]
    else
      var rest := Split(pattern[1..]);
      if pattern[0] == '*' then [[]] + rest else [[pattern[0]] + rest[0]] + rest[1..]
  }

  method WildcardMatch(pattern: string, value: string) returns (ok: bool)
    ensures ok <==> Matches(pattern, value)
  {
    if pattern == "*" {
      StarMatchesAll(value);
      return true;
    }
    if '*' !in pattern {
      LiteralMatches(pattern, value);
      return pattern == value;
    }

    var parts := Split(pattern);
    SplitHasStar(pattern);
    SplitMatches(pattern, value);
    if !HasPrefix(value, parts[0]) {
      return false;
    }

    ok := MatchParts(parts, value, |parts[0]|);
  }

  /** The middle parts are found leftmost first; the last one must end the value. */
  method MatchParts(parts: seq<string>, value: string, start: nat) returns (ok: bool)
    requires |parts| > 1 && start <= |value|
    ensures ok <==> PartsMatch(parts[1..], value[start..])
  {
    var position := start;
    for i := 1 to |parts| - 1
      invariant 0 <= position <= |value|
      invariant PartsMatch(parts[1..], value[start..]) <==> PartsMatch(parts[i..], value[position..])
    {
      var part := parts[i];
      var rest := value[position..];
      var index := IndexOf(rest, part);
      GreedyStep(parts, i, value, position);
      if part == "" {
        assert index == Some(0);
        continue;
      }
      if index.None? {
        return false;
      }
      position := position + index.value + |part|;
    }

    var last := parts[|parts| - 1];
    assert parts[|parts| - 1..] == [last];
    return last == "" || HasSuffix(value[position..], last);
  }

  // ---------- greedy search ----------

  /** Whatever matches after a later cut matches after an earlier one: the gap only grows. */
  lemma {:induction false} EarlierCut(parts: seq<string>, value: string, i: nat)
    requires parts != [] && i <= |value| && PartsMatch(parts, value[i..])
    ensures PartsMatch(parts, value)
  {
    var rest := value[i..];
    if |parts| == 1 {
      assert value[|value| - |parts[0]|..] == rest[|rest| - |parts[0]|..];
    } else {
      var k :| OccursAt(rest, parts[0], k) && PartsMatch(parts[1..], rest[k + |parts[0]|..]);
      assert value[i + k..i + k + |parts[0]|] == rest[k..k + |parts[0]|];
      assert value[i + k + |parts[0]|..] == rest[k + |parts[0]|..];
      assert OccursAt(value, parts[0], i + k);
    }
  }

  /** Committing to the leftmost occurrence of a part loses no match. */
  lemma GreedyIsComplete(part: string, rest: seq<string>, value: string, k: nat)
    requires rest != [] && OccursAt(value, part, k) && PartsMatch(rest, value[k + |part|..])
    ensures IndexOf(value, part).Some? && PartsMatch(rest, value[IndexOf(value, part).value + |part|..])
  {
    var first := IndexOf(value, part).value;
    assert first <= k;
    var tail := value[first + |part|..];
    assert tail[k - first..] == value[k + |part|..];
    EarlierCut(rest, tail, k - first);
  }

  lemma GreedyIsExact(part: string, rest: seq<string>, value: string)
    requires rest != []
    ensures PartsMatch([part] + rest, value) <==>
      IndexOf(value, part).Some? && PartsMatch(rest, value[IndexOf(value, part).value + |part|..])
  {
    var parts := [part] + rest;
    assert parts[0] == part && parts[1..] == rest;
    if PartsMatch(parts, value) {
      var k :| OccursAt(value, part, k) && PartsMatch(rest, value[k + |part|..]);
      GreedyIsComplete(part, rest, value, k);
    }
  }

  lemma GreedyStep(parts: seq<string>, i: nat, value: string, position: nat)
    requires i + 1 < |parts| && position <= |value|
    ensures var index := IndexOf(value[position..], parts[i]);
      PartsMatch(parts[i..], value[position..]) <==>
        index.Some? && PartsMatch(parts[i + 1..], value[position + index.value + |parts[i]|..])
  {
    assert parts[i..] == [parts[i]] + parts[i + 1..];
    GreedyIsExact(parts[i], parts[i + 1..], value[position..]);
    var index := IndexOf(value[position..], parts[i]);
    if index.Some? {
      assert value[position..][index.value + |parts[i]|..] == value[position + index.value + |parts[i]|..];
    }
  }

  // ---------- parts and patterns ----------

  lemma StarMatchesAll(value: string)
    ensures Matches("*", value)
  {
    assert "*"[1..] == [] && value[|value|..] == [];
    assert Matches("*"[1..], value[|value|..]);
  }

  lemma {:induction false} LiteralMatches(pattern: string, value: string)
    requires '*' !in pattern
    ensures Matches(pattern, value) <==> pattern == value
  {
    if pattern != [] && value != [] && pattern[0] == value[0] {
      LiteralMatches(pattern[1..], value[1..]);
      assert pattern == [pattern[0]] + pattern[1..] && value == [value[0]] + value[1..];
    }
  }

  lemma {:induction false} SplitHasStar(pattern: string)
    ensures |Split(pattern)| > 1 <==> '*' in pattern
  {
    if pattern != [] {
      SplitHasStar(pattern[1..]);
      assert pattern == [pattern[0]] + pattern[1..];
    }
  }

  lemma HeadMismatch(s: string, prefix: string)
    requires prefix != [] && (s == [] || s[0] != prefix[0])
    ensures !HasPrefix(s, prefix)
  {
    if |prefix| <= |s| {
      assert s[..|prefix|][0] == s[0];
    }
  }

  lemma PrefixCons(c: char, prefix: string, s: string)
    ensures HasPrefix([c] + s, [c] + prefix) <==> HasPrefix(s, prefix)
  {
    if |prefix| <= |s| {
      assert ([c] + s)[..|prefix| + 1] == [c] + s[..|prefix|];
      assert ([c] + prefix)[1..] == prefix && ([c] + s[..|prefix|])[1..] == s[..|prefix|];
    }
  }

  /** A pattern with a star matches when its first part is a prefix and the others follow in order. */
  lemma {:induction false} SplitMatches(pattern: string, value: string)
    ensures var parts := Split(pattern);
      Matches(pattern, value) <==>
        if |parts| == 1 then value == parts[0]
        else HasPrefix(value, parts[0]) && PartsMatch(parts[1..], value[|parts[0]|..])
    decreases |pattern|, 0
  {
    var parts := Split(pattern);
    if pattern != [] {
      var rest := Split(pattern[1..]);
      if pattern[0] == '*' {
        assert parts[1..] == rest && value[0..] == value;
        StarSplits(pattern[1..], value);
      } else if value != [] && value[0] == pattern[0] {
        SplitMatches(pattern[1..], value[1..]);
        assert value == [value[0]] + value[1..];
        assert parts[0] == [pattern[0]] + rest[0] && parts[1..] == rest[1..];
        PrefixCons(value[0], rest[0], value[1..]);
        if |parts[0]| <= |value| {
          assert value[|parts[0]|..] == value[1..][|rest[0]|..];
        }
      } else {
        HeadMismatch(value, parts[0]);
      }
    }
  }

  lemma PrefixBehind(value: string, part: string, k: nat)
    requires k <= |value|
    ensures HasPrefix(value[k..], part) <==> OccursAt(value, part, k)
    ensures OccursAt(value, part, k) ==> value[k..][|part|..] == value[k + |part|..]
  {
    if k + |part| <= |value| {
      assert value[k..][..|part|] == value[k..k + |part|];
    }
  }

  lemma {:induction false} SplitBehind(pattern: string, value: string, k: nat)
    requires k <= |value|
    ensures var parts := Split(pattern);
      Matches(pattern, value[k..]) <==>
        if |parts| == 1 then value[k..] == parts[0]
        else OccursAt(value, parts[0], k) && PartsMatch(parts[1..], value[k + |parts[0]|..])
    decreases |pattern|, 1
  {
    SplitMatches(pattern, value[k..]);
    PrefixBehind(value, Split(pattern)[0], k);
  }

  /** Behind a star the first part may start anywhere. */
  lemma {:induction false} StarSplits(pattern: string, value: string)
    ensures (exists k :: 0 <= k <= |value| && Matches(pattern, value[k..])) <==> PartsMatch(Split(pattern), value)
    decreases |pattern|, 2
  {
    var parts := Split(pattern);
    if PartsMatch(parts, value) {
      var k := |value| - |parts[0]|;
      if |parts| > 1 {
        k :| OccursAt(value, parts[0], k) && PartsMatch(parts[1..], value[k + |parts[0]|..]);
      }
      SplitBehind(pattern, value, k);
      assert Matches(pattern, value[k..]);
    }
    if k :| 0 <= k <= |value| && Matches(pattern, value[k..]) {
      SplitBehind(pattern, value, k);
      if |parts| > 1 {
        assert OccursAt(value, parts[0], k);
      }
    }
  }
}
