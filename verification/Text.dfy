/** The few string operations of the Go standard library that the modelled code leans on. */
module Text {
  import opened Common

  predicate HasPrefix(s: string, prefix: string) {
    |prefix| <= |s| && s[..|prefix|] == prefix
  }

  predicate HasSuffix(s: string, suffix: string) {
    |suffix| <= |s| && s[|s| - |suffix|..] == suffix
  }

  /** `sub` occurs in `s` at `k`. */
  predicate OccursAt(s: string, sub: string, k: int) {
    0 <= k && k + |sub| <= |s| && s[k..k + |sub|] == sub
  }

  /** Leftmost occurrence, as strings.Index. */
  function IndexOf(s: string, sub: string): (r: Option<nat>)
    ensures r.Some? ==> OccursAt(s, sub, r.value) && forall k :: 0 <= k < r.value ==> !OccursAt(s, sub, k)
    ensures r.None? ==> forall k :: !OccursAt(s, sub, k)
  {
    if |s| < |sub| then None
    else if s[..|sub|] == sub then Some(0)
    else
      var r := IndexOf(s[1..], sub);
      assert forall k :: k >= 1 ==> (OccursAt(s, sub, k) <==> OccursAt(s[1..], sub, k - 1)) by {
        forall k | k >= 1 ensures OccursAt(s, sub, k) <==> OccursAt(s[1..], sub, k - 1) {
          OccursShift(s, sub, k);
        }
      }
      if r.Some? then Some(r.value + 1) else None
  }

  lemma OccursShift(s: string, sub: string, k: int)
    requires s != [] && k >= 1
    ensures OccursAt(s, sub, k) <==> OccursAt(s[1..], sub, k - 1)
  {
    if k + |sub| <= |s| {
      var a, b := s[k..k + |sub|], s[1..][k - 1..k - 1 + |sub|];
      assert |a| == |b| == |sub|;
      forall i | 0 <= i < |sub| ensures a[i] == b[i] {
        assert a[i] == s[k + i] && b[i] == s[1..][k - 1 + i];
      }
      assert a == b;
    }
  }

  lemma OccursExtends(s: string, sub: string, tail: string, k: nat)
    requires k + |sub| <= |s|
    ensures OccursAt(s + tail, sub, k) <==> OccursAt(s, sub, k)
  {
    var a, b := (s + tail)[k..k + |sub|], s[k..k + |sub|];
    assert |a| == |b| == |sub|;
    assert forall i :: 0 <= i < |sub| ==> a[i] == b[i];
    assert a == b;
  }

  /** The leftmost occurrence is not disturbed by what follows it. */
  lemma IndexOfExtends(s: string, sub: string, tail: string)
    requires IndexOf(s, sub).Some?
    ensures IndexOf(s + tail, sub) == IndexOf(s, sub)
  {
    var i := IndexOf(s, sub).value;
    OccursExtends(s, sub, tail, i);
    forall k | 0 <= k < i ensures !OccursAt(s + tail, sub, k) {
      OccursExtends(s, sub, tail, k);
    }
  }

  predicate IsLetter(c: char) {
    'a' <= c <= 'z' || 'A' <= c <= 'Z'
  }

  predicate IsDigit(c: char) {
    '0' <= c <= '9'
  }

  predicate IsWordChar(c: char) {
    c == '_' || IsLetter(c) || IsDigit(c)
  }

  function UpperChar(c: char): char {
    if 'a' <= c <= 'z' then (c as int - 32) as char else c
  }

  function Upper(s: string): (r: string)
    ensures |r| == |s|
  {
    seq(|s|, i requires 0 <= i < |s| => UpperChar(s[i]))
  }

  function LowerChar(c: char): char {
    if 'A' <= c <= 'Z' then (c as int + 32) as char else c
  }

  function Lower(s: string): (r: string)
    ensures |r| == |s|
  {
    seq(|s|, i requires 0 <= i < |s| => LowerChar(s[i]))
  }

  lemma LowerIdempotent(s: string)
    ensures Lower(Lower(s)) == Lower(s)
  {
  }

  const SMALL := "abcdefghijklmnopqrstuvwxyz"
  const CAPITAL := "ABCDEFGHIJKLMNOPQRSTUVWXYZ"
  const DIGITS := "0123456789"

  lemma AlphabetsAreRuns(i: nat)
    ensures |SMALL| == |CAPITAL| == 26 && |DIGITS| == 10
    ensures i < 26 ==> SMALL[i] as int == 97 + i && CAPITAL[i] as int == 65 + i
    ensures i < 10 ==> DIGITS[i] as int == 48 + i
  {
  }

  lemma InRun(run: string, first: int, c: char)
    requires forall i :: 0 <= i < |run| ==> run[i] as int == first + i
    ensures c in run <==> first <= c as int < first + |run|
  {
    if first <= c as int < first + |run| {
      assert run[c as int - first] == c;
    }
  }

  /** Letters, digits and word characters, written out. */
  lemma AlphabetIs(c: char)
    ensures IsLetter(c) <==> c in SMALL || c in CAPITAL
    ensures IsDigit(c) <==> c in DIGITS
    ensures IsWordChar(c) <==> IsLetter(c) || IsDigit(c) || c == '_'
  {
    forall i: nat {
      AlphabetsAreRuns(i);
    }
    InRun(SMALL, 97, c);
    InRun(CAPITAL, 65, c);
    InRun(DIGITS, 48, c);
  }

  /** Case folding exchanges the letters at the same place of the two alphabets and leaves the rest alone. */
  lemma CaseFolds(c: char, i: nat)
    requires i < 26
    ensures |SMALL| == |CAPITAL| == 26
    ensures UpperChar(SMALL[i]) == CAPITAL[i] && UpperChar(CAPITAL[i]) == CAPITAL[i]
    ensures LowerChar(CAPITAL[i]) == SMALL[i] && LowerChar(SMALL[i]) == SMALL[i]
    ensures !IsLetter(c) ==> UpperChar(c) == c && LowerChar(c) == c
  {
    AlphabetsAreRuns(i);
  }

  /** A blank is the space or one of the control characters 9 to 13. */
  lemma BlanksAre(c: char)
    ensures IsSpace(c) <==> c as int == 32 || 9 <= c as int <= 13
  {
  }

  /** Trimming takes blanks off both ends and nothing else. */
  lemma TrimSpaceIsExact(s: string) returns (i: nat, j: nat)
    ensures i <= j <= |s| && TrimSpace(s) == s[i..j]
    ensures forall k :: 0 <= k < i || j <= k < |s| ==> IsSpace(s[k])
    ensures i < j ==> !IsSpace(s[i]) && !IsSpace(s[j - 1])
  {
    i := TrimLeftIsExact(s);
    var rest := s[i..];
    var n := TrimRightIsExact(rest);
    j := i + n;
    assert rest[..n] == s[i..j];
    forall k | j <= k < |s| ensures IsSpace(s[k]) {
      assert s[k] == rest[k - i];
    }
  }

  lemma {:induction false} TrimLeftIsExact(s: string) returns (i: nat)
    ensures i <= |s| && TrimLeft(s) == s[i..]
    ensures forall k :: 0 <= k < i ==> IsSpace(s[k])
    ensures i < |s| ==> !IsSpace(s[i])
  {
    i := 0;
    if s != [] && IsSpace(s[0]) {
      var n := TrimLeftIsExact(s[1..]);
      i := n + 1;
      assert s[1..][n..] == s[i..];
      forall k | 0 <= k < i ensures IsSpace(s[k]) {
        assert k > 0 ==> s[k] == s[1..][k - 1];
      }
    }
  }

  lemma {:induction false} TrimRightIsExact(s: string) returns (j: nat)
    ensures j <= |s| && TrimRight(s) == s[..j]
    ensures forall k :: j <= k < |s| ==> IsSpace(s[k])
    ensures j > 0 ==> !IsSpace(s[j - 1])
  {
    j := |s|;
    if s != [] && IsSpace(s[|s| - 1]) {
      j := TrimRightIsExact(s[..|s| - 1]);
      assert s[..|s| - 1][..j] == s[..j];
    }
  }

  predicate EqualFold(a: string, b: string) {
    Lower(a) == Lower(b)
  }

  predicate IsSpace(c: char) {
    c == ' ' || c == '\t' || c == '\n' || c == '\r' || c as int == 11 || c as int == 12
  }

  function TrimLeft(s: string): string {
    if s != [] && IsSpace(s[0]) then TrimLeft(s[1..]) else s
  }

  function TrimRight(s: string): string {
    if s != [] && IsSpace(s[|s| - 1]) then TrimRight(s[..|s| - 1]) else s
  }

  function TrimSpace(s: string): string {
    TrimRight(TrimLeft(s))
  }
}
