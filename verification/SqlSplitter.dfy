/**
 Finding transaction control in a migration file: the SQL text is split into top-level
 statements, with comments, literals, quoted identifiers and dollar-quoted bodies blanked,
 and the first word of each statement is looked up.

 The lexical forms are those of the PostgreSQL documentation, sections 4.1.2.1 (string
 constants), 4.1.2.4 (dollar quoting) and 4.1.5 (comments, which nest). The specification is
 a grammar: scripts are built from lexical pieces, and splitting the text of a script must
 give back its statements.
 */
module SqlSplitter {
  import opened Common
  import opened Text

  // ---------- the scanner as a function of the remaining text ----------

  predicate IsTagChar(c: char, j: nat) {
    c == '_' || IsLetter(c) || (j > 1 && IsDigit(c))
  }

  function TagFrom(s: string, j: nat): (r: Option<nat>)
    requires 1 <= j
    ensures r.Some? ==> j < r.value <= |s|
    decreases |s| - j
  {
    if j >= |s| then None
    else if s[j] == '$' then Some(j + 1)
    else if IsTagChar(s[j], j) then TagFrom(s, j + 1)
    else None
  }

  /** Length of the opening dollar-quote tag `s` starts with. */
  function DollarQuoteTag(s: string): (r: Option<nat>)
    ensures r.Some? ==> 2 <= r.value <= |s|
  {
    if |s| < 2 || s[0] != '$' then None else TagFrom(s, 1)
  }

  /** Declarative reading: two dollar signs around letters, underscores and, not in first place, digits. */
  ghost predicate IsDollarTag(tag: string) {
    && |tag| >= 2 && tag[0] == '$' && tag[|tag| - 1] == '$'
    && (forall j :: 0 < j < |tag| - 1 ==> tag[j] == '_' || IsLetter(tag[j]) || IsDigit(tag[j]))
    && !IsDigit(tag[1])
  }

  lemma {:induction false} TagFromIff(s: string, j: nat, n: nat)
    requires 1 <= j
    ensures TagFrom(s, j) == Some(n) <==>
      j < n <= |s| && s[n - 1] == '$' && forall i :: j <= i < n - 1 ==> IsTagChar(s[i], i)
    decreases |s| - j
  {
    if j < |s| && s[j] != '$' && IsTagChar(s[j], j) {
      TagFromIff(s, j + 1, n);
    } else if j < |s| && s[j] == '$' && j < n - 1 <= |s| {
      assert !IsTagChar(s[j], j);
    }
  }

  /** The opening tag is the prefix that is a dollar-quote tag; there is at most one. */
  lemma DollarQuoteTagIff(s: string, n: nat)
    ensures DollarQuoteTag(s) == Some(n) <==> n <= |s| && IsDollarTag(s[..n])
  {
    if |s| >= 2 && s[0] == '$' {
      TagFromIff(s, 1, n);
    }
    if n <= |s| {
      assert forall i :: 0 <= i < n ==> s[..n][i] == s[i];
    }
  }

  function SkipBlock(s: string, depth: nat): (r: string)
    ensures |r| <= |s|
    decreases |s|
  {
    if depth == 0 || s == [] then s
    else if HasPrefix(s, "/*") then SkipBlock(s[2..], depth + 1)
    else if HasPrefix(s, "*/") then SkipBlock(s[2..], depth - 1)
    else SkipBlock(s[1..], depth)
  }

  function SkipLiteral(s: string): (r: string)
    ensures |r| <= |s|
  {
    if s == [] then s
    else if s[0] == '\'' then
      if |s| > 1 && s[1] == '\'' then SkipLiteral(s[2..]) else s[1..]
    else SkipLiteral(s[1..])
  }

  function SkipIdentifier(s: string): (r: string)
    ensures |r| <= |s|
  {
    if s == [] then s else if s[0] == '"' then s[1..] else SkipIdentifier(s[1..])
  }

  function SkipDollar(s: string, tag: string): (r: string)
    ensures |r| <= |s|
  {
    match IndexOf(s, tag)
    case Some(end) => s[end + |tag|..]
    case None => []
  }

  function SkipLine(s: string): (r: string)
    ensures |r| <= |s|
  {
    match IndexOf(s, "\n")
    case Some(end) => s[end + 1..]
    case None => []
  }

  /** The part of `s` behind the opaque region it starts with, if it starts with one. */
  function Opaque(s: string): (r: Option<string>)
    requires s != []
    ensures r.Some? ==> |r.value| < |s|
  {
    if HasPrefix(s, "--") then
      (if IndexOf(s, "\n").Some? then assert |SkipLine(s)| < |s|; Some(SkipLine(s)) else Some([]))
    else if HasPrefix(s, "/*") then Some(SkipBlock(s[2..], 1))
    else if s[0] == '\'' then Some(SkipLiteral(s[1..]))
    else if s[0] == '"' then Some(SkipIdentifier(s[1..]))
    else if DollarQuoteTag(s).Some? then
      var n := DollarQuoteTag(s).value;
      Some(SkipDollar(s[n..], s[..n]))
    else None
  }

  function Flush(buf: string): seq<string> {
    if TrimSpace(buf) == [] then [] else [TrimSpace(buf)]
  }

  /** The statements of the text `s`, given `buf` already collected for the current one. */
  function Scan(s: string, buf: string): seq<string>
    decreases |s|
  {
    if s == [] then Flush(buf)
    else if Opaque(s).Some? then Scan(Opaque(s).value, buf + " ")
    else if s[0] == ';' then Flush(buf) + Scan(s[1..], [])
    else Scan(s[1..], buf + [s[0]])
  }

  // ---------- the scanner as the loop over an index ----------

  function From(sql: string, i: nat): string {
    if i <= |sql| then sql[i..] else []
  }

  lemma ScanFrom(sql: string, i: nat, buf: string)
    requires i < |sql|
    ensures Scan(From(sql, i), buf) ==
      if Opaque(sql[i..]).Some? then Scan(Opaque(sql[i..]).value, buf + " ")
      else if sql[i] == ';' then Flush(buf) + Scan(From(sql, i + 1), [])
      else Scan(From(sql, i + 1), buf + [sql[i]])
  {
    assert sql[i..][1..] == sql[i + 1..];
  }

  lemma FlushFirst(statements: seq<string>, buf: string, rest: seq<string>)
    ensures (statements + Flush(buf)) + rest == statements + (Flush(buf) + rest)
  {
  }

  method SplitTopLevelStatements(sql: string) returns (statements: seq<string>)
    ensures statements == Scan(sql, [])
  {
    statements := [];
    var buf: string := [];
    var i := 0;
    ghost var whole := Scan(sql, []);
    assert From(sql, 0) == sql;
    while i < |sql|
      invariant 0 <= i
      invariant statements + Scan(From(sql, i), buf) == whole
      decreases |sql| - i
    {
      var skipped, next := SkipOpaqueRegion(sql, i);
      ScanFrom(sql, i, buf);
      if skipped {
        buf := buf + " ";
        i := next;
      } else if sql[i] == ';' {
        FlushFirst(statements, buf, Scan(From(sql, i + 1), []));
        statements := statements + Flush(buf);
        buf := [];
        i := i + 1;
      } else {
        buf := buf + [sql[i]];
        i := i + 1;
      }
    }
    statements := statements + Flush(buf);
  }

  /** The five kinds of region whose text is dropped; `next` is the index behind the one at `i`. */
  method SkipOpaqueRegion(sql: string, i: nat) returns (skipped: bool, next: nat)
    requires i < |sql|
    ensures skipped == Opaque(sql[i..]).Some?
    ensures skipped ==> next > i && From(sql, next) == Opaque(sql[i..]).value
  {
    skipped, next := true, i;
    if HasPrefix(sql[i..], "--") {
      match IndexOf(sql[i..], "\n") {
        case Some(end) => next := i + end + 1;
        case None => next := |sql|;
      }
    } else if HasPrefix(sql[i..], "/*") {
      next := SkipBlockComment(sql, i + 2);
    } else if sql[i] == '\'' {
      next := SkipStringLiteral(sql, i + 1);
    } else if sql[i] == '"' {
      next := SkipQuotedIdentifier(sql, i + 1);
    } else if sql[i] == '$' {
      match DollarQuoteTag(sql[i..]) {
        case None => skipped := false;
        case Some(n) => next := SkipDollarQuoted(sql, i, n);
      }
    } else {
      skipped := false;
    }
  }

  method SkipDollarQuoted(sql: string, i: nat, n: nat) returns (next: nat)
    requires i < |sql| && DollarQuoteTag(sql[i..]) == Some(n)
    ensures i < next <= |sql| && sql[next..] == SkipDollar(sql[i..][n..], sql[i..][..n])
  {
    var tag := sql[i..][..n];
    next := i + n;
    assert sql[i..][n..] == sql[next..];
    match IndexOf(sql[next..], tag) {
      case Some(end) => next := next + end + |tag|;
      case None => next := |sql|;
    }
  }

  /** An unterminated identifier leaves the index one past the end. */
  method SkipQuotedIdentifier(sql: string, start: nat) returns (i: nat)
    requires start <= |sql|
    ensures start < i && From(sql, i) == SkipIdentifier(sql[start..])
  {
    i := start;
    while i < |sql| && sql[i] != '"'
      invariant start <= i <= |sql|
      invariant SkipIdentifier(sql[i..]) == SkipIdentifier(sql[start..])
    {
      assert sql[i..][1..] == sql[i + 1..];
      i := i + 1;
    }
    i := i + 1;
  }

  lemma DropDrop(s: string, i: nat, n: nat)
    requires i + n <= |s|
    ensures s[i..][n..] == s[i + n..]
  {
  }

  method SkipBlockComment(sql: string, start: nat) returns (i: nat)
    requires start <= |sql|
    ensures start <= i <= |sql|
    ensures sql[i..] == SkipBlock(sql[start..], 1)
  {
    i := start;
    var depth := 1;
    while depth > 0 && i < |sql|
      invariant start <= i <= |sql| && depth >= 0
      invariant SkipBlock(sql[i..], depth) == SkipBlock(sql[start..], 1)
      decreases |sql| - i
    {
      if HasPrefix(sql[i..], "/*") {
        depth := depth + 1;
        DropDrop(sql, i, 2);
        i := i + 2;
      } else if HasPrefix(sql[i..], "*/") {
        depth := depth - 1;
        DropDrop(sql, i, 2);
        i := i + 2;
      } else {
        DropDrop(sql, i, 1);
        i := i + 1;
      }
    }
  }

  method SkipStringLiteral(sql: string, start: nat) returns (i: nat)
    requires start <= |sql|
    ensures start <= i <= |sql|
    ensures sql[i..] == SkipLiteral(sql[start..])
  {
    i := start;
    while i < |sql|
      invariant start <= i <= |sql|
      invariant SkipLiteral(sql[i..]) == SkipLiteral(sql[start..])
    {
      if sql[i] == '\'' {
        if i + 1 < |sql| && sql[i + 1] == '\'' {
          assert sql[i..][2..] == sql[i + 2..];
          i := i + 2;
          continue;
        }
        assert sql[i..][1..] == sql[i + 1..];
        i := i + 1;
        return;
      }
      assert sql[i..][1..] == sql[i + 1..];
      i := i + 1;
    }
  }

  // ---------- the grammar ----------

  /** The text of a block comment behind its opening mark; `Cut` is the end of the file inside it. */
  datatype Comment =
    | End
    | Cut
    | Char(c: char, rest: Comment)
    | Nested(inner: Comment, rest: Comment)
  {
    function Text(): string {
      match this
      case End => "*/"
      case Cut => ""
      case Char(c, rest) => [c] + rest.Text()
      case Nested(inner, rest) => "/*" + inner.Text() + rest.Text()
    }

    /** The comment ends before the file does. */
    predicate Closed() {
      match this
      case End => true
      case Cut => false
      case Char(c, rest) => rest.Closed()
      case Nested(inner, rest) => inner.Closed() && rest.Closed()
    }

    /** No character of the comment accidentally opens or closes one with its neighbour. */
    ghost predicate WellFormed() {
      match this
      case End => true
      case Cut => true
      case Char(c, rest) =>
        && !(c == '/' && HasPrefix(rest.Text(), "*"))
        && !(c == '*' && HasPrefix(rest.Text(), "/"))
        && rest.WellFormed()
      case Nested(inner, rest) => inner.WellFormed() && rest.WellFormed() && (!inner.Closed() ==> rest == Cut)
    }
  }

  /** The pieces a statement is made of. The `Open` ones are not closed before the end of the file. */
  datatype Piece =
    | Plain(c: char)
    | LineComment(body: string)
    | FinalComment(body: string)   // a line comment ended by the end of the file
    | BlockComment(comment: Comment)
    | Literal(content: string)     // quotes inside are doubled in the text
    | OpenLiteral(content: string)
    | QuotedIdentifier(body: string)
    | OpenIdentifier(body: string)
    | DollarQuoted(tag: string, body: string)
    | OpenDollar(tag: string, body: string)

  function Doubled(content: string): string {
    if content == [] then []
    else (if content[0] == '\'' then "''" else [content[0]]) + Doubled(content[1..])
  }

  function PieceText(p: Piece): string {
    match p
    case Plain(c) => [c]
    case LineComment(body) => "--" + body + "\n"
    case FinalComment(body) => "--" + body
    case BlockComment(comment) => "/*" + comment.Text()
    case Literal(content) => "'" + Doubled(content) + "'"
    case OpenLiteral(content) => "'" + Doubled(content)
    case QuotedIdentifier(body) => "\"" + body + "\""
    case OpenIdentifier(body) => "\"" + body
    case DollarQuoted(tag, body) => tag + body + tag
    case OpenDollar(tag, body) => tag + body
  }

  /** What survives of a piece: opaque pieces become one blank. */
  function Blanked(p: Piece): string {
    if p.Plain? then [p.c] else " "
  }

  ghost predicate IsTag(tag: string) {
    DollarQuoteTag(tag) == Some(|tag|)
  }

  /** `p` is a piece of its kind when the text `next` follows it. */
  ghost predicate WellFormed(p: Piece, next: string) {
    match p
    case Plain(c) =>
      && c != '\'' && c != '"' && c != ';'
      && !(c == '-' && HasPrefix(next, "-"))
      && !(c == '/' && HasPrefix(next, "*"))
      && !(c == '$' && DollarQuoteTag("$" + next).Some?)
    case LineComment(body) => '\n' !in body
    case FinalComment(body) => '\n' !in body && next == []
    case BlockComment(comment) => comment.WellFormed() && (comment.Closed() || next == [])
    case Literal(content) => !HasPrefix(next, "'")
    case OpenLiteral(content) => next == []
    case QuotedIdentifier(body) => '"' !in body
    case OpenIdentifier(body) => '"' !in body && next == []
    case DollarQuoted(tag, body) => IsTag(tag) && IndexOf(body + tag, tag) == Some(|body|)
    case OpenDollar(tag, body) => IsTag(tag) && IndexOf(body, tag) == None && next == []
  }

  type Statement = seq<Piece>

  function StatementText(st: Statement): string {
    if st == [] then [] else PieceText(st[0]) + StatementText(st[1..])
  }

  function StatementBlanked(st: Statement): string {
    if st == [] then [] else Blanked(st[0]) + StatementBlanked(st[1..])
  }

  ghost predicate StatementWellFormed(st: Statement, next: string) {
    st == [] || (WellFormed(st[0], StatementText(st[1..]) + next) && StatementWellFormed(st[1..], next))
  }

  /** Statements separated by semicolons; a final semicolon is an empty last statement. */
  function ScriptText(script: seq<Statement>): string
    decreases |script|, 1
  {
    if script == [] then []
    else StatementText(script[0]) + ScriptRest(script)
  }

  function ScriptRest(script: seq<Statement>): string
    requires script != []
    decreases |script|, 0
  {
    if |script| == 1 then [] else ";" + ScriptText(script[1..])
  }

  ghost predicate ScriptWellFormed(script: seq<Statement>) {
    script == [] || (StatementWellFormed(script[0], ScriptRest(script)) && ScriptWellFormed(script[1..]))
  }

  /** The statements of the script, blanked and trimmed, empty ones dropped. */
  function Statements(script: seq<Statement>): seq<string> {
    if script == [] then [] else Flush(StatementBlanked(script[0])) + Statements(script[1..])
  }

  // ---------- splitting the text of a script gives its statements ----------

  lemma {:induction false} SkipBlockComments(c: Comment, next: string, depth: nat)
    requires c.WellFormed() && depth >= 1 && (c.Closed() || next == [])
    ensures SkipBlock(c.Text() + next, depth) == if c.Closed() then SkipBlock(next, depth - 1) else []
    decreases c, 1
  {
    match c
    case End =>
      SkipBlockMark(next, depth);
    case Cut =>
      assert c.Text() + next == [];
    case Char(x, rest) =>
      assert Char(x, rest).Text() + next == [x] + (rest.Text() + next);
      SkipBlockStep(x, rest.Text(), next, depth);
      SkipBlockComments(rest, next, depth);
    case Nested(inner, rest) =>
      SkipBlockNested(inner, rest, next, depth);
  }

  lemma {:induction false} SkipBlockNested(inner: Comment, rest: Comment, next: string, depth: nat)
    requires Nested(inner, rest).WellFormed() && depth >= 1 && (Nested(inner, rest).Closed() || next == [])
    ensures SkipBlock(Nested(inner, rest).Text() + next, depth) ==
      if Nested(inner, rest).Closed() then SkipBlock(next, depth - 1) else []
    decreases Nested(inner, rest), 0
  {
    var tail := rest.Text() + next;
    NestedText(inner, rest, next);
    SkipBlockMark(inner.Text() + tail, depth);
    SkipBlockComments(inner, tail, depth + 1);
    if inner.Closed() {
      SkipBlockComments(rest, next, depth);
    }
  }

  lemma NestedText(inner: Comment, rest: Comment, next: string)
    ensures Nested(inner, rest).Text() + next == "/*" + (inner.Text() + (rest.Text() + next))
  {
  }

  lemma SkipBlockMark(t: string, depth: nat)
    requires depth >= 1
    ensures SkipBlock("/*" + t, depth) == SkipBlock(t, depth + 1)
    ensures SkipBlock("*/" + t, depth) == SkipBlock(t, depth - 1)
  {
    var open, close := "/*" + t, "*/" + t;
    assert open[..2] == "/*" && open[2..] == t;
    assert close[..2] == "*/" && close[2..] == t;
  }

  lemma SkipBlockStep(x: char, rest: string, next: string, depth: nat)
    requires depth >= 1 && (rest == [] ==> next == [])
    requires !(x == '/' && HasPrefix(rest, "*")) && !(x == '*' && HasPrefix(rest, "/"))
    ensures SkipBlock([x] + (rest + next), depth) == SkipBlock(rest + next, depth)
  {
    var s := [x] + (rest + next);
    assert s[1..] == rest + next;
    if rest != [] {
      assert s[..2] == [x, rest[0]] && rest[..1] == [rest[0]];
    }
  }

  lemma {:induction false} SkipLiteralContent(content: string, next: string)
    requires !HasPrefix(next, "'")
    ensures SkipLiteral(Doubled(content) + "'" + next) == next
  {
    var s := Doubled(content) + "'" + next;
    if content == [] {
      assert s[1..] == next;
      assert |s| > 1 ==> s[1] == next[0] && next[..1] == [next[0]];
    } else {
      SkipLiteralContent(content[1..], next);
      if content[0] == '\'' {
        assert s[2..] == Doubled(content[1..]) + "'" + next;
      } else {
        assert s[1..] == Doubled(content[1..]) + "'" + next;
      }
    }
  }

  /** A literal that is never closed takes the rest of the file. */
  lemma {:induction false} SkipOpenLiteral(content: string)
    ensures SkipLiteral(Doubled(content)) == []
  {
    if content != [] {
      var s := Doubled(content);
      SkipOpenLiteral(content[1..]);
      if content[0] == '\'' {
        assert s[2..] == Doubled(content[1..]);
      } else {
        assert s[1..] == Doubled(content[1..]);
      }
    }
  }

  lemma {:induction false} SkipOpenIdentifier(body: string)
    requires '"' !in body
    ensures SkipIdentifier(body) == []
  {
    if body != [] {
      assert body[0] in body;
      SkipOpenIdentifier(body[1..]);
    }
  }

  lemma {:induction false} SkipIdentifierBody(body: string, next: string)
    requires '"' !in body
    ensures SkipIdentifier(body + "\"" + next) == next
  {
    var s := body + "\"" + next;
    if body == [] {
      assert s[1..] == next;
    } else {
      assert s[1..] == body[1..] + "\"" + next;
      assert s[0] == body[0] && body[0] in body;
      SkipIdentifierBody(body[1..], next);
    }
  }

  lemma {:induction false} TagExtends(s: string, j: nat, next: string)
    requires 1 <= j && TagFrom(s, j).Some?
    ensures TagFrom(s + next, j) == TagFrom(s, j)
    decreases |s| - j
  {
    if s[j] != '$' {
      TagExtends(s, j + 1, next);
    }
  }

  lemma LineEnds(body: string, next: string)
    requires '\n' !in body
    ensures IndexOf("--" + body + "\n" + next, "\n") == Some(2 + |body|)
  {
    var s := "--" + body + "\n" + next;
    assert OccursAt(s, "\n", 2 + |body|);
    forall k | 0 <= k < 2 + |body| ensures !OccursAt(s, "\n", k) {
      assert s[k..k + 1] == [s[k]];
      if k >= 2 {
        assert s[k] == body[k - 2];
      }
    }
  }

  lemma LineNeverEnds(body: string)
    requires '\n' !in body
    ensures IndexOf("--" + body, "\n") == None
  {
    var s := "--" + body;
    forall k | 0 <= k < |s| ensures !OccursAt(s, "\n", k) {
      assert s[k..k + 1] == [s[k]];
      if k >= 2 {
        assert s[k] == body[k - 2];
      }
    }
  }

  lemma DollarQuotedSkipped(tag: string, body: string, next: string)
    requires WellFormed(DollarQuoted(tag, body), next)
    ensures var s := tag + body + tag + next;
      DollarQuoteTag(s) == Some(|tag|) && s[..|tag|] == tag && SkipDollar(s[|tag|..], tag) == next
  {
    var s := tag + body + tag + next;
    assert s == tag + (body + tag + next);
    TagExtends(tag, 1, body + tag + next);
    assert s[|tag|..] == (body + tag) + next;
    IndexOfExtends(body + tag, tag, next);
    assert ((body + tag) + next)[|body| + |tag|..] == next;
  }

  lemma OpaqueLine(body: string, next: string)
    requires '\n' !in body
    ensures Opaque("--" + body + "\n" + next) == Some(next)
  {
    var s := "--" + body + "\n" + next;
    assert s[..2] == "--";
    LineEnds(body, next);
    assert s[2 + |body| + 1..] == next;
  }

  lemma OpaqueFinalLine(body: string)
    requires '\n' !in body
    ensures Opaque("--" + body) == Some([])
  {
    assert ("--" + body)[..2] == "--";
    LineNeverEnds(body);
  }

  lemma OpaqueBlockMark(t: string)
    ensures Opaque("/*" + t) == Some(SkipBlock(t, 1))
  {
    var s := "/*" + t;
    assert s[..2] == "/*" && s[2..] == t;
    assert s[..2] != "--";
  }

  lemma OpaqueBlock(comment: Comment, next: string)
    requires comment.WellFormed() && (comment.Closed() || next == [])
    ensures Opaque("/*" + comment.Text() + next) == Some(next)
  {
    assert "/*" + comment.Text() + next == "/*" + (comment.Text() + next);
    OpaqueBlockMark(comment.Text() + next);
    SkipBlockComments(comment, next, 1);
  }

  lemma OpaqueQuoted(s: string, next: string)
    requires s != []
    requires s[0] == '\'' || s[0] == '"'
    requires next == if s[0] == '\'' then SkipLiteral(s[1..]) else SkipIdentifier(s[1..])
    ensures Opaque(s) == Some(next)
  {
    NoOpening(s);
  }

  lemma OpaqueLiteral(content: string, next: string)
    requires !HasPrefix(next, "'")
    ensures Opaque("'" + Doubled(content) + "'" + next) == Some(next)
  {
    var s := "'" + Doubled(content) + "'" + next;
    assert s[1..] == Doubled(content) + "'" + next;
    SkipLiteralContent(content, next);
    OpaqueQuoted(s, next);
  }

  lemma OpaqueIdentifier(body: string, next: string)
    requires '"' !in body
    ensures Opaque("\"" + body + "\"" + next) == Some(next)
  {
    var s := "\"" + body + "\"" + next;
    assert s[1..] == body + "\"" + next;
    SkipIdentifierBody(body, next);
    OpaqueQuoted(s, next);
  }

  lemma OpaqueDollar(tag: string, body: string, next: string)
    requires WellFormed(DollarQuoted(tag, body), next)
    ensures tag != [] && Opaque(tag + body + tag + next) == Some(next)
  {
    DollarQuotedSkipped(tag, body, next);
    NoOpening(tag + body + tag + next);
  }

  lemma OpaqueOpenLiteral(content: string)
    ensures Opaque("'" + Doubled(content)) == Some([])
  {
    var s := "'" + Doubled(content);
    assert s[1..] == Doubled(content);
    SkipOpenLiteral(content);
    OpaqueQuoted(s, []);
  }

  lemma OpaqueOpenIdentifier(body: string)
    requires '"' !in body
    ensures Opaque("\"" + body) == Some([])
  {
    var s := "\"" + body;
    assert s[1..] == body;
    SkipOpenIdentifier(body);
    OpaqueQuoted(s, []);
  }

  /** A dollar quote that is never closed takes the rest of the file. */
  lemma OpaqueOpenDollar(tag: string, body: string)
    requires WellFormed(OpenDollar(tag, body), [])
    ensures tag != [] && Opaque(tag + body) == Some([])
  {
    var s := tag + body;
    TagExtends(tag, 1, body);
    assert s[..|tag|] == tag && s[|tag|..] == body;
    NoOpening(s);
  }

  /** An opaque piece is skipped as a whole. */
  lemma OpaquePiece(p: Piece, next: string)
    requires !p.Plain? && WellFormed(p, next)
    ensures PieceText(p) + next != [] && Opaque(PieceText(p) + next) == Some(next)
  {
    match p
    case LineComment(body) => OpaqueLine(body, next);
    case FinalComment(body) =>
      assert PieceText(p) + next == "--" + body;
      OpaqueFinalLine(body);
    case BlockComment(comment) => OpaqueBlock(comment, next);
    case Literal(content) => OpaqueLiteral(content, next);
    case OpenLiteral(content) =>
      assert PieceText(p) + next == "'" + Doubled(content);
      OpaqueOpenLiteral(content);
    case QuotedIdentifier(body) => OpaqueIdentifier(body, next);
    case OpenIdentifier(body) =>
      assert PieceText(p) + next == "\"" + body;
      OpaqueOpenIdentifier(body);
    case DollarQuoted(tag, body) => OpaqueDollar(tag, body, next);
    case OpenDollar(tag, body) =>
      assert PieceText(p) + next == tag + body;
      OpaqueOpenDollar(tag, body);
  }

  lemma NoOpening(s: string)
    requires s != [] && s[0] != '-' && s[0] != '/'
    ensures !HasPrefix(s, "--") && !HasPrefix(s, "/*")
  {
    if |s| >= 2 {
      assert s[..2][0] == s[0];
    }
  }

  lemma PlainPiece(c: char, next: string)
    requires WellFormed(Plain(c), next)
    ensures Opaque([c] + next) == None && ([c] + next)[0] == c && ([c] + next)[1..] == next && c != ';'
  {
    var s := [c] + next;
    if |s| >= 2 {
      assert s[..2] == [c, next[0]] && next[..1] == [next[0]];
    }
  }

  /** Scanning past one piece leaves its blanked form in the buffer. */
  lemma ScanPiece(p: Piece, next: string, buf: string)
    requires WellFormed(p, next)
    ensures Scan(PieceText(p) + next, buf) == Scan(next, buf + Blanked(p))
  {
    if p.Plain? {
      PlainPiece(p.c, next);
    } else {
      OpaquePiece(p, next);
    }
  }

  lemma {:induction false} ScanStatement(st: Statement, next: string, buf: string)
    requires StatementWellFormed(st, next)
    ensures Scan(StatementText(st) + next, buf) == Scan(next, buf + StatementBlanked(st))
  {
    if st == [] {
      assert StatementText(st) + next == next;
      assert buf + StatementBlanked(st) == buf;
    } else {
      var rest := StatementText(st[1..]) + next;
      assert StatementText(st) + next == PieceText(st[0]) + rest;
      ScanPiece(st[0], rest, buf);
      ScanStatement(st[1..], next, buf + Blanked(st[0]));
      assert buf + StatementBlanked(st) == (buf + Blanked(st[0])) + StatementBlanked(st[1..]);
    }
  }

  /** MAIN RESULT. Splitting the text of any well-formed script yields exactly its statements. */
  lemma {:induction false} SplitIsExact(script: seq<Statement>)
    requires ScriptWellFormed(script)
    ensures Scan(ScriptText(script), []) == Statements(script)
  {
    if script != [] {
      var next := ScriptRest(script);
      ScanStatement(script[0], next, []);
      assert [] + StatementBlanked(script[0]) == StatementBlanked(script[0]);
      if |script| > 1 {
        assert next[0] == ';' && next[1..] == ScriptText(script[1..]);
        NoOpening(next);
        SplitIsExact(script[1..]);
      } else {
        assert Statements(script[1..]) == [];
      }
    }
  }

  // ---------- every text is the text of a script ----------

  /** The comment at the start of `s`, which stands behind an opening mark, and what follows it. */
  lemma {:induction false} ReadComment(s: string) returns (c: Comment, rest: string)
    ensures c.WellFormed() && s == c.Text() + rest && (c.Closed() || rest == [])
    ensures HasPrefix(s, "*/") ==> c == End
    ensures s != [] && !HasPrefix(s, "*/") && !HasPrefix(s, "/*") ==> c.Char?
    decreases |s|
  {
    if s == [] {
      c, rest := Cut, [];
    } else if HasPrefix(s, "*/") {
      c, rest := End, s[2..];
    } else if HasPrefix(s, "/*") {
      var inner, behind := ReadComment(s[2..]);
      if inner.Closed() {
        var outer;
        outer, rest := ReadComment(behind);
        c := Nested(inner, outer);
      } else {
        c, rest := Nested(inner, Cut), [];
      }
      assert s == "/*" + s[2..];
    } else {
      var more;
      more, rest := ReadComment(s[1..]);
      c := Char(s[0], more);
      CharIsAlone(s, more, rest);
    }
  }

  /** A character that opens or closes nothing with its neighbour in the text does not in the comment. */
  lemma CharIsAlone(s: string, more: Comment, rest: string)
    requires s != [] && !HasPrefix(s, "*/") && !HasPrefix(s, "/*")
    requires s[1..] == more.Text() + rest && more.WellFormed()
    ensures Char(s[0], more).WellFormed() && s == Char(s[0], more).Text() + rest
  {
    var text := more.Text();
    assert s == [s[0]] + s[1..];
    if text != [] {
      assert s[1] == text[0] && s[..2] == [s[0], text[0]] && text[..1] == [text[0]];
    }
  }

  /** The literal that `s`, behind its opening quote, starts with. */
  lemma {:induction false} ReadLiteral(s: string) returns (content: string, closed: bool, rest: string)
    ensures s == Doubled(content) + (if closed then "'" + rest else "")
    ensures closed ==> !HasPrefix(rest, "'")
    decreases |s|
  {
    if s == [] {
      content, closed, rest := [], false, [];
    } else if s[0] != '\'' {
      content, closed, rest := ReadLiteral(s[1..]);
      content := [s[0]] + content;
    } else if |s| > 1 && s[1] == '\'' {
      content, closed, rest := ReadLiteral(s[2..]);
      content := ['\''] + content;
      assert s == "''" + s[2..];
    } else {
      content, closed, rest := [], true, s[1..];
      assert |s| > 1 ==> s[1..][..1] == [s[1]];
      assert s == "'" + s[1..];
    }
  }

  /** The opaque piece that `s` starts with, when it starts with one. */
  lemma ReadOpaque(s: string) returns (p: Piece, rest: string)
    requires s != [] && Opaque(s).Some?
    ensures !p.Plain? && WellFormed(p, rest) && s == PieceText(p) + rest
  {
    if HasPrefix(s, "--") {
      p, rest := ReadLine(s);
    } else if HasPrefix(s, "/*") {
      p, rest := ReadBlock(s);
    } else if s[0] == '\'' {
      p, rest := ReadQuoted(s);
    } else if s[0] == '"' {
      p, rest := ReadIdentifier(s);
    } else {
      p, rest := ReadDollar(s);
    }
  }

  lemma ReadBlock(s: string) returns (p: Piece, rest: string)
    requires HasPrefix(s, "/*")
    ensures !p.Plain? && WellFormed(p, rest) && s == PieceText(p) + rest
  {
    var c;
    c, rest := ReadComment(s[2..]);
    p := BlockComment(c);
    assert s == "/*" + s[2..];
  }

  lemma ReadQuoted(s: string) returns (p: Piece, rest: string)
    requires s != [] && s[0] == '\''
    ensures !p.Plain? && WellFormed(p, rest) && s == PieceText(p) + rest
  {
    var content, closed;
    content, closed, rest := ReadLiteral(s[1..]);
    assert s == "'" + s[1..];
    if closed {
      p := Literal(content);
    } else {
      p, rest := OpenLiteral(content), [];
    }
  }

  lemma ReadLine(s: string) returns (p: Piece, rest: string)
    requires HasPrefix(s, "--")
    ensures !p.Plain? && WellFormed(p, rest) && s == PieceText(p) + rest
  {
    var body := s[2..];
    assert s == "--" + body;
    match IndexOf(body, "\n")
    case Some(i) =>
      p, rest := LineComment(body[..i]), body[i + 1..];
      CutAtFirst(body, '\n', i);
      InFront("--", body[..i], "\n", rest);
    case None =>
      p, rest := FinalComment(body), [];
      NotIn(body, '\n');
  }

  lemma ReadIdentifier(s: string) returns (p: Piece, rest: string)
    requires s != [] && s[0] == '"'
    ensures !p.Plain? && WellFormed(p, rest) && s == PieceText(p) + rest
  {
    var body := s[1..];
    assert s == "\"" + body;
    match IndexOf(body, "\"")
    case Some(i) =>
      p, rest := QuotedIdentifier(body[..i]), body[i + 1..];
      CutAtFirst(body, '"', i);
      InFront("\"", body[..i], "\"", rest);
    case None =>
      p, rest := OpenIdentifier(body), [];
      NotIn(body, '"');
  }

  lemma CutAtFirst(s: string, c: char, i: nat)
    requires OccursAt(s, [c], i) && forall k :: 0 <= k < i ==> !OccursAt(s, [c], k)
    ensures i < |s| && s == s[..i] + [c] + s[i + 1..] && c !in s[..i]
  {
    assert s[i..i + 1] == [s[i]];
    forall k | 0 <= k < i ensures s[k] != c {
      assert s[k..k + 1] == [s[k]] && !OccursAt(s, [c], k);
    }
  }

  lemma NotIn(s: string, c: char)
    requires forall k :: !OccursAt(s, [c], k)
    ensures c !in s
  {
    forall k | 0 <= k < |s| ensures s[k] != c {
      assert s[k..k + 1] == [s[k]] && !OccursAt(s, [c], k);
    }
  }

  lemma TagAlone(s: string, n: nat)
    requires DollarQuoteTag(s) == Some(n)
    ensures n <= |s| && IsTag(s[..n])
  {
    DollarQuoteTagIff(s, n);
    assert s[..n][..n] == s[..n];
    DollarQuoteTagIff(s[..n], n);
  }

  lemma ReadDollar(s: string) returns (p: Piece, rest: string)
    requires DollarQuoteTag(s).Some?
    ensures !p.Plain? && WellFormed(p, rest) && s == PieceText(p) + rest
  {
    var n := DollarQuoteTag(s).value;
    TagAlone(s, n);
    assert s == s[..n] + s[n..];
    p, rest := ReadDollarBody(s[..n], s[n..]);
  }

  lemma ReadDollarBody(tag: string, behind: string) returns (p: Piece, rest: string)
    requires IsTag(tag)
    ensures !p.Plain? && WellFormed(p, rest) && tag + behind == PieceText(p) + rest
  {
    match IndexOf(behind, tag)
    case Some(i) =>
      var body;
      body, rest := CutAtTag(behind, tag, i);
      p := DollarQuoted(tag, body);
      InFront(tag, body, tag, rest);
    case None =>
      p, rest := OpenDollar(tag, behind), [];
      assert PieceText(p) + rest == tag + behind;
  }

  lemma InFront(a: string, b: string, c: string, d: string)
    ensures a + (b + c + d) == (a + b + c) + d
  {
  }

  lemma CutAtTag(s: string, tag: string, i: nat) returns (body: string, rest: string)
    requires IndexOf(s, tag) == Some(i)
    ensures |body| == i && s == body + tag + rest && IndexOf(body + tag, tag) == Some(i)
  {
    body, rest := s[..i], s[i + |tag|..];
    ThreeParts(s, i, i + |tag|);
    assert s == (body + tag) + rest;
    OccursAtEnd(body, tag);
    IndexOfExtends(body + tag, tag, rest);
  }

  lemma ThreeParts(s: string, i: nat, j: nat)
    requires i <= j <= |s|
    ensures s == s[..i] + s[i..j] + s[j..]
  {
  }

  lemma OccursAtEnd(s: string, sub: string)
    ensures IndexOf(s + sub, sub).Some?
  {
    assert (s + sub)[|s|..|s| + |sub|] == sub;
    assert OccursAt(s + sub, sub, |s|);
  }

  /** The piece that `s` starts with. */
  lemma ReadPiece(s: string) returns (p: Piece, rest: string)
    requires s != [] && (s[0] != ';' || Opaque(s).Some?)
    ensures WellFormed(p, rest) && s == PieceText(p) + rest && |rest| < |s|
  {
    if Opaque(s).Some? {
      p, rest := ReadOpaque(s);
      OpaquePiece(p, rest);
    } else {
      p, rest := Plain(s[0]), s[1..];
      assert s == [s[0]] + rest;
      PlainIsAlone(s);
    }
  }

  lemma PlainIsAlone(s: string)
    requires s != [] && s[0] != ';' && Opaque(s).None?
    ensures WellFormed(Plain(s[0]), s[1..])
  {
    var next := s[1..];
    assert s == [s[0]] + next;
    if next != [] {
      assert s[..2] == [s[0], next[0]] && next[..1] == [next[0]];
    }
  }

  /** Every text at all is the text of a well-formed script. */
  lemma {:induction false} EveryTextIsAScript(s: string) returns (script: seq<Statement>)
    ensures script != [] && ScriptWellFormed(script) && ScriptText(script) == s
    decreases |s|
  {
    if s == [] {
      script := [[]];
      assert script[1..] == [];
    } else if s[0] == ';' {
      NoOpening(s);
      var rest := EveryTextIsAScript(s[1..]);
      script := [[]] + rest;
      assert script[1..] == rest && s == ";" + s[1..];
    } else {
      var p, behind := ReadPiece(s);
      var rest := EveryTextIsAScript(behind);
      script := [[p] + rest[0]] + rest[1..];
      PieceInFront(p, rest, script);
    }
  }

  lemma PieceInFront(p: Piece, rest: seq<Statement>, script: seq<Statement>)
    requires rest != [] && ScriptWellFormed(rest) && WellFormed(p, ScriptText(rest))
    requires script == [[p] + rest[0]] + rest[1..]
    ensures ScriptWellFormed(script) && ScriptText(script) == PieceText(p) + ScriptText(rest)
  {
    assert script[1..] == rest[1..] && script[0][1..] == rest[0] && script[0][0] == p;
    assert ScriptRest(script) == ScriptRest(rest);
  }

  // ---------- the first words of a statement ----------

  function SkipNonWord(s: string): (r: string)
    ensures |r| <= |s|
    ensures r != [] ==> IsWordChar(r[0])
  {
    if s != [] && !IsWordChar(s[0]) then SkipNonWord(s[1..]) else s
  }

  function TakeWord(s: string): (r: string)
    ensures |r| <= |s| && s[..|r|] == r
  {
    if s != [] && IsWordChar(s[0]) then [s[0]] + TakeWord(s[1..]) else []
  }

  /** The first two fields of the statement, upper-cased; missing ones are empty. */
  function FirstTwoTokens(stmt: string): (string, string) {
    var s := SkipNonWord(stmt);
    var first := TakeWord(s);
    (Upper(first), Upper(TakeWord(SkipNonWord(s[|first|..]))))
  }

  const CONTROL_KEYWORDS: set<string> :=
    {"BEGIN", "COMMIT", "END", "ROLLBACK", "ABORT", "START", "SAVEPOINT", "RELEASE"}

  /** The transaction-control keyword a statement opens with, if any. */
  function ControlKeyword(stmt: string): Option<string> {
    var (first, second) := FirstTwoTokens(stmt);
    if first in CONTROL_KEYWORDS then Some(first)
    else if first == "PREPARE" && second == "TRANSACTION" then Some("PREPARE TRANSACTION")
    else None
  }

  function FirstControl(statements: seq<string>): Option<string> {
    if statements == [] then None
    else if ControlKeyword(statements[0]).Some? then ControlKeyword(statements[0])
    else FirstControl(statements[1..])
  }

  method FirstTransactionControlStatement(sql: string) returns (r: Option<string>)
    ensures r == FirstControl(Scan(sql, []))
  {
    var statements := SplitTopLevelStatements(sql);
    for i := 0 to |statements|
      invariant FirstControl(statements[i..]) == FirstControl(statements)
    {
      var (first, second) := FirstTwoTokens(statements[i]);
      if first in CONTROL_KEYWORDS {
        return Some(first);
      }
      if first == "PREPARE" && second == "TRANSACTION" {
        return Some("PREPARE TRANSACTION");
      }
    }
    return None;
  }

  /** Declarative reading: `s` opens with the word `w` (compared in upper case) at position `i`. */
  ghost predicate OpensWithAt(s: string, w: string, i: int) {
    && 0 <= i && i + |w| <= |s|
    && (forall k :: 0 <= k < i ==> !IsWordChar(s[k]))
    && (forall k :: i <= k < i + |w| ==> IsWordChar(s[k]))
    && Upper(s[i..i + |w|]) == w
    && (i + |w| < |s| ==> !IsWordChar(s[i + |w|]))
  }

  ghost predicate OpensWith(s: string, w: string) {
    exists i :: OpensWithAt(s, w, i)
  }

  lemma {:induction false} TakeWordIsMaximal(s: string)
    ensures forall k :: 0 <= k < |TakeWord(s)| ==> IsWordChar(s[k])
    ensures |TakeWord(s)| < |s| ==> !IsWordChar(s[|TakeWord(s)|])
  {
    if s != [] && IsWordChar(s[0]) {
      TakeWordIsMaximal(s[1..]);
      forall k | 0 <= k < |TakeWord(s)| ensures IsWordChar(s[k]) {
        if k > 0 {
          assert s[k] == s[1..][k - 1];
        }
      }
    }
  }

  lemma {:induction false} SkipNonWordSplits(s: string) returns (n: nat)
    ensures n <= |s| && SkipNonWord(s) == s[n..]
    ensures forall k :: 0 <= k < n ==> !IsWordChar(s[k])
  {
    n := 0;
    if s != [] && !IsWordChar(s[0]) {
      var m := SkipNonWordSplits(s[1..]);
      n := m + 1;
      assert s[1..][m..] == s[n..];
      assert forall k :: 0 < k < n ==> s[k] == s[1..][k - 1];
    }
  }

  /** Where the first token stands; the second token is the first one behind it. */
  lemma FirstTokenOpens(s: string) returns (n: nat)
    requires FirstTwoTokens(s).0 != []
    ensures OpensWithAt(s, FirstTwoTokens(s).0, n)
    ensures FirstTwoTokens(s).1 == FirstTwoTokens(s[n + |FirstTwoTokens(s).0|..]).0
  {
    n := SkipNonWordSplits(s);
    var word := TakeWord(s[n..]);
    TakeWordIsMaximal(s[n..]);
    assert s[n..n + |word|] == word;
    assert s[n..][|word|..] == s[n + |word|..];
  }

  lemma OpeningIsUnique(s: string, w: string, i: int, w': string, i': int)
    requires w != [] && w' != [] && OpensWithAt(s, w, i) && OpensWithAt(s, w', i')
    ensures w == w' && i == i'
  {
    assert IsWordChar(s[i]) && IsWordChar(s[i']);
    assert i == i';
    assert |w| == |w'|;
  }

  lemma {:induction false} WordCharRemains(s: string, i: int)
    requires 0 <= i < |s| && IsWordChar(s[i])
    ensures TakeWord(SkipNonWord(s)) != []
  {
    if !IsWordChar(s[0]) {
      WordCharRemains(s[1..], i - 1);
    }
  }

  /** The first token is the word the statement opens with. */
  lemma FirstTokenIsOpening(s: string, w: string)
    requires w != []
    ensures FirstTwoTokens(s).0 == w <==> OpensWith(s, w)
  {
    if OpensWith(s, w) {
      var i :| OpensWithAt(s, w, i);
      WordCharRemains(s, i);
      var i' := FirstTokenOpens(s);
      OpeningIsUnique(s, w, i, FirstTwoTokens(s).0, i');
    } else if FirstTwoTokens(s).0 == w {
      var i := FirstTokenOpens(s);
    }
  }

  /** `s` opens with the word `v`, and what follows it opens with `w`. */
  ghost predicate OpensWithBoth(s: string, v: string, w: string) {
    exists i :: OpensWithAt(s, v, i) && OpensWith(s[i + |v|..], w)
  }

  lemma BothBehindFirst(s: string, v: string, w: string, n: int)
    requires v != [] && OpensWithAt(s, v, n)
    ensures OpensWithBoth(s, v, w) <==> OpensWith(s[n + |v|..], w)
  {
    if OpensWithBoth(s, v, w) {
      var i :| OpensWithAt(s, v, i) && OpensWith(s[i + |v|..], w);
      OpeningIsUnique(s, v, i, v, n);
    }
  }

  lemma BothNeedFirst(s: string, v: string, w: string)
    requires !OpensWith(s, v)
    ensures !OpensWithBoth(s, v, w)
  {
  }

  lemma TwoTokensAreOpening(s: string, v: string, w: string)
    requires v != [] && w != []
    ensures FirstTwoTokens(s) == (v, w) <==> OpensWithBoth(s, v, w)
  {
    FirstTokenIsOpening(s, v);
    if FirstTwoTokens(s).0 == v {
      var n := FirstTokenOpens(s);
      FirstTokenIsOpening(s[n + |v|..], w);
      BothBehindFirst(s, v, w, n);
    } else {
      BothNeedFirst(s, v, w);
    }
  }

  // ---------- trimming does not change the tokens ----------

  lemma {:induction false} TrimLeftTokens(s: string)
    ensures SkipNonWord(TrimLeft(s)) == SkipNonWord(s)
  {
    if s != [] && IsSpace(s[0]) {
      TrimLeftTokens(s[1..]);
    }
  }

  lemma {:induction false} TakeWordBeforeBlank(s: string, c: char)
    requires !IsWordChar(c)
    ensures TakeWord(s + [c]) == TakeWord(s)
  {
    if s == [] {
      assert s + [c] == [c];
    } else {
      assert (s + [c])[1..] == s[1..] + [c];
      TakeWordBeforeBlank(s[1..], c);
    }
  }

  lemma {:induction false} SkipNonWordBeforeBlank(s: string, c: char)
    requires !IsWordChar(c)
    ensures SkipNonWord(s + [c]) == if SkipNonWord(s) == [] then [] else SkipNonWord(s) + [c]
  {
    if s == [] {
      assert s + [c] == [c] && [c][1..] == [];
    } else {
      assert (s + [c])[1..] == s[1..] + [c];
      if !IsWordChar(s[0]) {
        SkipNonWordBeforeBlank(s[1..], c);
      }
    }
  }

  lemma TokensBeforeBlank(s: string, c: char)
    requires !IsWordChar(c)
    ensures FirstTwoTokens(s + [c]) == FirstTwoTokens(s)
  {
    SkipNonWordBeforeBlank(s, c);
    var rest := SkipNonWord(s);
    if rest != [] {
      TakeWordBeforeBlank(rest, c);
      var n := |TakeWord(rest)|;
      assert (rest + [c])[n..] == rest[n..] + [c];
      SkipNonWordBeforeBlank(rest[n..], c);
      var rest2 := SkipNonWord(rest[n..]);
      if rest2 != [] {
        TakeWordBeforeBlank(rest2, c);
      }
    }
  }

  lemma {:induction false} TrimRightTokens(s: string)
    ensures FirstTwoTokens(TrimRight(s)) == FirstTwoTokens(s)
  {
    if s != [] && IsSpace(s[|s| - 1]) {
      TrimRightTokens(s[..|s| - 1]);
      TokensBeforeBlank(s[..|s| - 1], s[|s| - 1]);
      assert s == s[..|s| - 1] + [s[|s| - 1]];
    }
  }

  lemma TrimSpaceTokens(s: string)
    ensures FirstTwoTokens(TrimSpace(s)) == FirstTwoTokens(s)
  {
    TrimLeftTokens(s);
    TrimRightTokens(TrimLeft(s));
  }

  lemma {:induction false} FirstControlAppend(a: seq<string>, b: seq<string>)
    ensures FirstControl(a + b) == if FirstControl(a).Some? then FirstControl(a) else FirstControl(b)
  {
    if a == [] {
      assert a + b == b;
    } else {
      assert (a + b)[1..] == a[1..] + b;
      FirstControlAppend(a[1..], b);
    }
  }

  lemma FlushControl(buf: string)
    ensures FirstControl(Flush(buf)) == ControlKeyword(buf)
  {
    TrimSpaceTokens(buf);
    if TrimSpace(buf) != [] {
      assert FirstControl([TrimSpace(buf)][1..]) == None;
    }
  }

  /** The words that control a transaction on their own. */
  predicate ControlsAlone(w: string) {
    || w == "BEGIN" || w == "COMMIT" || w == "END" || w == "ROLLBACK" || w == "ABORT" || w == "START"
    || w == "SAVEPOINT" || w == "RELEASE"
  }

  /** The statement opens with transaction control, reported as `w`. */
  ghost predicate OpensAs(st: Statement, w: string) {
    var s := StatementBlanked(st);
    || (ControlsAlone(w) && OpensWith(s, w))
    || (w == "PREPARE TRANSACTION" && OpensWithBoth(s, "PREPARE", "TRANSACTION"))
  }

  ghost predicate IsControl(st: Statement) {
    exists w :: OpensAs(st, w)
  }

  lemma TableHoldsTheWords(w: string)
    ensures w in CONTROL_KEYWORDS <==> ControlsAlone(w)
    ensures ControlsAlone(w) ==> w != [] && w[0] != 'P'
  {
  }

  /** The keyword table and the test for PREPARE decide exactly how a statement opens. */
  lemma KeywordIffOpensAs(st: Statement, w: string)
    ensures ControlKeyword(StatementBlanked(st)) == Some(w) <==> OpensAs(st, w)
  {
    var s := StatementBlanked(st);
    var first := FirstTwoTokens(s).0;
    TableHoldsTheWords(first);
    TableHoldsTheWords(w);
    TwoTokensAreOpening(s, "PREPARE", "TRANSACTION");
    assert "PREPARE"[0] == 'P' && "PREPARE TRANSACTION"[0] == 'P';
    if ControlsAlone(w) {
      FirstTokenIsOpening(s, w);
    }
  }

  lemma IsControlIffKeyword(st: Statement)
    ensures IsControl(st) <==> ControlKeyword(StatementBlanked(st)).Some?
  {
    forall w ensures ControlKeyword(StatementBlanked(st)) == Some(w) <==> OpensAs(st, w) {
      KeywordIffOpensAs(st, w);
    }
  }

  /** Statement `i` is the first of the script to open with transaction control. */
  ghost predicate IsFirstControl(script: seq<Statement>, i: int, w: string) {
    0 <= i < |script| && OpensAs(script[i], w) && forall k :: 0 <= k < i ==> !IsControl(script[k])
  }

  /** MAIN RESULT. A word is reported for a script's text if and only if the first of its top-level statements
      to open with transaction control opens with that word; nothing is reported if and only if none does. */
  lemma ReportedIffControl(script: seq<Statement>, w: string)
    requires ScriptWellFormed(script)
    ensures FirstControl(Scan(ScriptText(script), [])) == Some(w) <==> exists i :: IsFirstControl(script, i, w)
    ensures FirstControl(Scan(ScriptText(script), [])).Some? <==>
      exists i :: 0 <= i < |script| && IsControl(script[i])
  {
    SplitIsExact(script);
    FirstWordOfStatements(script, w);
    ControlOfStatements(script);
  }

  /** MAIN RESULT. No text escapes: every file is the text of some script, and what is reported for it is what that
      script opens with. */
  lemma EveryFileIsDecided(sql: string, w: string) returns (script: seq<Statement>)
    ensures ScriptWellFormed(script) && ScriptText(script) == sql
    ensures Scan(sql, []) == Statements(script)
    ensures FirstControl(Scan(sql, [])) == Some(w) <==> exists i :: IsFirstControl(script, i, w)
    ensures FirstControl(Scan(sql, [])).Some? <==> exists i :: 0 <= i < |script| && IsControl(script[i])
  {
    script := EveryTextIsAScript(sql);
    SplitIsExact(script);
    ReportedIffControl(script, w);
  }

  lemma {:induction false} FirstWordOfStatements(script: seq<Statement>, w: string)
    ensures FirstControl(Statements(script)) == Some(w) <==> exists i :: IsFirstControl(script, i, w)
  {
    if script != [] {
      var buf, rest := StatementBlanked(script[0]), script[1..];
      FirstControlAppend(Flush(buf), Statements(rest));
      FlushControl(buf);
      IsControlIffKeyword(script[0]);
      KeywordIffOpensAs(script[0], w);
      if IsControl(script[0]) {
        assert forall i :: IsFirstControl(script, i, w) ==> i == 0;
        assert IsFirstControl(script, 0, w) <==> OpensAs(script[0], w);
      } else {
        FirstWordOfStatements(rest, w);
        FirstControlBehind(script, w);
      }
    }
  }

  lemma FirstControlBehind(script: seq<Statement>, w: string)
    requires script != [] && !IsControl(script[0])
    ensures (exists i :: IsFirstControl(script, i, w)) <==> exists i :: IsFirstControl(script[1..], i, w)
  {
    var rest := script[1..];
    if exists i :: IsFirstControl(script, i, w) {
      var i :| IsFirstControl(script, i, w);
      assert rest[i - 1] == script[i];
      forall k | 0 <= k < i - 1 ensures !IsControl(rest[k]) {
        assert rest[k] == script[k + 1];
      }
      assert IsFirstControl(rest, i - 1, w);
    }
    if exists i :: IsFirstControl(rest, i, w) {
      var i :| IsFirstControl(rest, i, w);
      assert rest[i] == script[i + 1];
      forall k | 0 <= k < i + 1 ensures !IsControl(script[k]) {
        assert k > 0 ==> script[k] == rest[k - 1];
      }
      assert IsFirstControl(script, i + 1, w);
    }
  }

  lemma {:induction false} ControlOfStatements(script: seq<Statement>)
    ensures FirstControl(Statements(script)).Some? <==> exists i :: 0 <= i < |script| && IsControl(script[i])
  {
    if script != [] {
      var buf := StatementBlanked(script[0]);
      FirstControlAppend(Flush(buf), Statements(script[1..]));
      FlushControl(buf);
      IsControlIffKeyword(script[0]);
      ControlOfStatements(script[1..]);
      if exists i :: 0 <= i < |script| && IsControl(script[i]) {
        var i :| 0 <= i < |script| && IsControl(script[i]);
        assert i > 0 ==> script[1..][i - 1] == script[i];
      }
      if exists i :: 0 <= i < |script[1..]| && IsControl(script[1..][i]) {
        var i :| 0 <= i < |script[1..]| && IsControl(script[1..][i]);
        assert script[i + 1] == script[1..][i];
      }
    }
  }
}
