/**
 * Diagnostics (internal/lsp/diagnostics.go): parse errors, or else
 * type-check errors, turned into LSP diagnostics that run from the
 * reported position to the end of its line.
 */
module Diagnostics {
  import opened Text
  import opened Protocol

  /** The server's name, the source of every diagnostic. */
  const ServerName := "cells"

  /** A cel-go issue: a 1-based line, a 0-based column and a message. */
  datatype Issue = Issue(line: int, column: int, message: string)

  /* ---------------- the end of a line ---------------- */

  /** The length of the first line of `s`: up to its first newline, or all of it. */
  function FirstLineLength(s: string): (n: nat)
    ensures n <= |s|
  {
    var k := Index(s, "\n");
    if k == -1 then |s| else k
  }

  /** The length of line `line` (0-based) of `s`; 0 when `s` has fewer lines. */
  function LineLength(s: string, line: nat): nat
    decreases line
  {
    if line == 0 then FirstLineLength(s)
    else
      var k := Index(s, "\n");
      if k == -1 then 0 else LineLength(s[k + 1..], line - 1)
  }

  /** The first newline of `s` is at `k`. */
  lemma FirstNewline(s: string, k: nat)
    requires k <= |s| && '\n' !in s[..k] && (k == |s| || s[k] == '\n')
    ensures k < |s| ==> Index(s, "\n") == k
    ensures k == |s| ==> Index(s, "\n") == -1
    ensures FirstLineLength(s) == k
  {
    IndexFirst(s, "\n");
    forall j | 0 <= j < k
      ensures !OccursAt(s, "\n", j)
    {
      assert s[..k][j] == s[j];
      assert s[j..j + 1] == [s[j]];
    }
    if k < |s| {
      assert s[k..k + 1] == "\n";
      assert OccursAt(s, "\n", k);
      var r := Index(s, "\n");
      assert r != -1;
      assert !(r < k);
    }
  }

  /** Where `Index` puts the first newline. */
  lemma IndexNewline(s: string)
    ensures var k := Index(s, "\n");
      && (k == -1 ==> '\n' !in s)
      && (k != -1 ==> 0 <= k < |s| && s[k] == '\n' && '\n' !in s[..k])
  {
    IndexFirst(s, "\n");
    var k := Index(s, "\n");
    if k == -1 {
      forall j | 0 <= j < |s| ensures s[j] != '\n' {
        assert !OccursAt(s, "\n", j);
        assert s[j..j + 1] == [s[j]];
      }
    } else {
      assert s[k..k + 1] == "\n";
      forall j | 0 <= j < k ensures s[j] != '\n' {
        assert !OccursAt(s, "\n", j);
        assert s[j..j + 1] == [s[j]];
      }
    }
  }

  /** Line `line` has the length of the `line`-th piece of the text split at newlines, if there is one. */
  lemma {:induction false} LineLengthIsPiece(s: string, line: nat)
    ensures var pieces := Split(s, '\n');
      LineLength(s, line) == if line < |pieces| then |pieces[line]| else 0
    decreases line
  {
    var k := Index(s, "\n");
    IndexNewline(s);
    if k == -1 {
      SplitNoSep(s, '\n');
      LineLengthNoNewline(s, line);
    } else {
      PiecesAfterNewline(s, k);
      if line > 0 {
        LineLengthIsPiece(s[k + 1..], line - 1);
        LineLengthIsPieceStep(s, line, k);
      }
    }
  }

  /** Past the first newline, line `line` is line `line - 1` of the rest, and so is the piece. */
  lemma LineLengthIsPieceStep(s: string, line: nat, k: nat)
    requires Index(s, "\n") == k && k < |s| && line > 0
    requires Split(s, '\n') == [s[..k]] + Split(s[k + 1..], '\n')
    requires var pieces := Split(s[k + 1..], '\n');
      LineLength(s[k + 1..], line - 1) == if line - 1 < |pieces| then |pieces[line - 1]| else 0
    ensures var pieces := Split(s, '\n');
      LineLength(s, line) == if line < |pieces| then |pieces[line]| else 0
  {
    LineLengthAfterNewline(s, line, k);
    PieceAfterFirst(s[..k], Split(s[k + 1..], '\n'), line);
  }

  lemma LineLengthNoNewline(s: string, line: nat)
    requires Index(s, "\n") == -1
    ensures LineLength(s, line) == if line == 0 then |s| else 0
  {
  }

  lemma LineLengthAfterNewline(s: string, line: nat, k: int)
    requires Index(s, "\n") == k && 0 <= k < |s| && line > 0
    ensures LineLength(s, line) == LineLength(s[k + 1..], line - 1)
  {
  }

  /** Past the first piece, piece `line` is piece `line - 1` of the rest. */
  lemma PieceAfterFirst(first: string, rest: seq<string>, line: nat)
    requires line > 0
    ensures var pieces := [first] + rest;
      (if line < |pieces| then |pieces[line]| else 0) == (if line - 1 < |rest| then |rest[line - 1]| else 0)
  {
    if line < |[first] + rest| {
      assert ([first] + rest)[line] == rest[line - 1];
    }
  }

  lemma PiecesAfterNewline(s: string, k: nat)
    requires k < |s| && s[k] == '\n' && '\n' !in s[..k]
    ensures Split(s, '\n') == [s[..k]] + Split(s[k + 1..], '\n')
  {
    AroundIndex(s, k);
    SplitAtFirst(s[..k], s[k + 1..], '\n');
  }

  /** The scan of `endOfLine` is at a line start. */
  lemma NextLine(s: string, ls: nat, i: nat, d: nat, e: nat)
    requires ls <= i < |s| && s[i] == '\n' && '\n' !in s[ls..i] && d > 0 && e == d - 1
    ensures LineLength(s[ls..], d) == LineLength(s[i + 1..], e)
  {
    var t := s[ls..];
    assert t[..i - ls] == s[ls..i];
    FirstNewline(t, i - ls);
    assert t[i - ls + 1..] == s[i + 1..];
  }

  lemma NoMoreLines(s: string, ls: nat, d: nat)
    requires ls <= |s| && '\n' !in s[ls..] && d > 0
    ensures LineLength(s[ls..], d) == 0
  {
    var t := s[ls..];
    assert t[..|t|] == t;
    FirstNewline(t, |t|);
  }

  /** The inner loop of `endOfLine`: from `i` to the next newline or the end of the text. */
  method ScanToNewline(content: string, i: nat) returns (end: nat)
    requires i <= |content|
    ensures i <= end <= |content| && end - i == FirstLineLength(content[i..])
  {
    end := i;
    while end < |content| && content[end] != '\n'
      invariant i <= end <= |content|
      invariant '\n' !in content[i..end]
    {
      end := end + 1;
    }
    assert content[i..][..end - i] == content[i..end];
    FirstNewline(content[i..], end - i);
  }

  /**
   * The state of `endOfLine`'s scan at byte `i` on line `currentLine`,
   * whose first byte is `ls`: the line sought lies ahead or starts at `i`.
   */
  predicate Scanning(content: string, line: nat, ls: nat, i: nat, currentLine: nat)
  {
    && ls <= i <= |content|
    && currentLine <= line
    && '\n' !in content[ls..i]
    && LineLength(content, line) == LineLength(content[ls..], line - currentLine)
    && (currentLine == line ==> ls == i)
  }

  lemma ScanStart(content: string, line: nat)
    ensures Scanning(content, line, 0, 0, 0)
  {
    assert content[0..] == content;
  }

  lemma ScanNewline(content: string, line: nat, ls: nat, i: nat, currentLine: nat)
    requires Scanning(content, line, ls, i, currentLine) && i < |content| && currentLine < line && content[i] == '\n'
    ensures Scanning(content, line, i + 1, i + 1, currentLine + 1)
  {
    NextLine(content, ls, i, line - currentLine, line - (currentLine + 1));
  }

  lemma ScanOther(content: string, line: nat, ls: nat, i: nat, currentLine: nat)
    requires Scanning(content, line, ls, i, currentLine) && i < |content| && currentLine < line && content[i] != '\n'
    ensures Scanning(content, line, ls, i + 1, currentLine)
  {
    assert content[ls..i + 1] == content[ls..i] + [content[i]];
  }

  lemma ScanEnd(content: string, line: nat, ls: nat, currentLine: nat)
    requires Scanning(content, line, ls, |content|, currentLine)
    ensures LineLength(content, line) == 0
  {
    if currentLine < line {
      NoMoreLines(content, ls, line - currentLine);
    } else {
      assert content[ls..] == [];
    }
  }

  /**
   * `endOfLine`: the position at the end of line `line`, its character
   * the line's length in bytes; character 0 past the last line.
   */
  method EndOfLine(content: string, line: nat) returns (p: Position)
    ensures p == Position(line, LineLength(content, line))
  {
    var currentLine := 0;
    var i := 0;
    ghost var ls := 0;
    ScanStart(content, line);
    while i < |content|
      invariant Scanning(content, line, ls, i, currentLine)
    {
      if currentLine == line {
        var end := ScanToNewline(content, i);
        return Position(line, end - i);
      }
      if content[i] == '\n' {
        ScanNewline(content, line, ls, i, currentLine);
        currentLine := currentLine + 1;
        ls := i + 1;
      } else {
        ScanOther(content, line, ls, i, currentLine);
      }
      i := i + 1;
    }
    ScanEnd(content, line, ls, currentLine);
    p := Position(line, 0);
  }

  /* ---------------- messages ---------------- */

  /** The index of the first `'` in `s`, or |s|. */
  function QuoteIndex(s: string): (k: nat)
    ensures k <= |s| && (k < |s| ==> s[k] == '\'')
  {
    if |s| == 0 || s[0] == '\'' then 0 else 1 + QuoteIndex(s[1..])
  }

  /**
   * `cleanMessage`: every match of `'([^']+)'`, leftmost first, whose
   * inside is an internal operator name with a display symbol becomes
   * that symbol in quotes; all other text stays. `reverse` is cel-go's
   * `operators.FindReverse` table.
   */
  function CleanMessage(msg: string, reverse: map<string, string>): (r: string)
    ensures r == "" <==> msg == ""
    ensures '\'' !in msg ==> r == msg
    decreases |msg|
  {
    if |msg| == 0 then ""
    else
      var head := CleanHead(msg, reverse);
      head.0 + CleanMessage(msg[head.1..], reverse)
  }

  /**
   * One step of `cleanMessage` at the head of the message: the text emitted
   * and the number of bytes it stands for.
   */
  function CleanHead(msg: string, reverse: map<string, string>): (r: (string, nat))
    requires msg != []
    ensures 1 <= r.1 <= |msg|
    ensures r.0 != ""
    ensures msg[0] != '\'' ==> r == ([msg[0]], 1)
  {
    if QuotedAtHead(msg) then
      var close := 1 + QuoteIndex(msg[1..]);
      var symbol := msg[1..close];
      (if symbol in reverse && reverse[symbol] != "" then "'" + reverse[symbol] + "'" else msg[..close + 1], close + 1)
    else ([msg[0]], 1)
  }

  /** A quoted span at the head of the message, as `cleanMessage` matches it. */
  predicate QuotedAtHead(msg: string)
  {
    msg != [] && msg[0] == '\'' && |msg| >= 2 && msg[1] != '\'' && QuoteIndex(msg[1..]) < |msg| - 1
  }

  /** `CleanMessage` emits the head step's text and goes on after the bytes it consumed. */
  lemma CleanStep(msg: string, reverse: map<string, string>)
    requires msg != []
    ensures var head := CleanHead(msg, reverse);
      CleanMessage(msg, reverse) == head.0 + CleanMessage(msg[head.1..], reverse)
  {
  }

  /** A quoted span whose inside has no display symbol is kept. */
  lemma CleanKeepsQuoted(msg: string, reverse: map<string, string>)
    requires QuotedAtHead(msg)
    requires var symbol := msg[1..1 + QuoteIndex(msg[1..])]; symbol !in reverse || reverse[symbol] == ""
    ensures var close := 1 + QuoteIndex(msg[1..]);
      CleanMessage(msg, reverse) == msg[..close + 1] + CleanMessage(msg[close + 1..], reverse)
  {
    var close := 1 + QuoteIndex(msg[1..]);
    assert CleanHead(msg, reverse) == (msg[..close + 1], close + 1);
    CleanStep(msg, reverse);
  }

  /** A quoted operator name is replaced by its display symbol. */
  lemma CleanReplacesQuoted(msg: string, reverse: map<string, string>)
    requires QuotedAtHead(msg)
    requires var symbol := msg[1..1 + QuoteIndex(msg[1..])]; symbol in reverse && reverse[symbol] != ""
    ensures var close := 1 + QuoteIndex(msg[1..]);
      CleanMessage(msg, reverse) == "'" + reverse[msg[1..close]] + "'" + CleanMessage(msg[close + 1..], reverse)
  {
    var close := 1 + QuoteIndex(msg[1..]);
    assert CleanHead(msg, reverse) == ("'" + reverse[msg[1..close]] + "'", close + 1);
    CleanStep(msg, reverse);
  }

  /** A byte that starts no quoted span is kept. */
  lemma CleanKeepsByte(msg: string, reverse: map<string, string>)
    requires msg != [] && !QuotedAtHead(msg)
    ensures CleanMessage(msg, reverse) == [msg[0]] + CleanMessage(msg[1..], reverse)
  {
    assert CleanHead(msg, reverse) == ([msg[0]], 1);
    CleanStep(msg, reverse);
  }

  /** With no display symbols the head step emits the bytes it consumes. */
  lemma CleanHeadKeeps(msg: string, reverse: map<string, string>)
    requires msg != [] && forall name :: name in reverse ==> reverse[name] == ""
    ensures CleanHead(msg, reverse).0 == msg[..CleanHead(msg, reverse).1]
  {
    if !QuotedAtHead(msg) {
      assert [msg[0]] == msg[..1];
    }
  }

  /** With no operator names to replace, every message is left as it is. */
  lemma {:induction false} CleanWithoutOperators(msg: string, reverse: map<string, string>)
    requires forall name :: name in reverse ==> reverse[name] == ""
    ensures CleanMessage(msg, reverse) == msg
    decreases |msg|
  {
    if |msg| > 0 {
      CleanWithoutOperators(msg[CleanHead(msg, reverse).1..], reverse);
      CleanKeepsHead(msg, reverse);
    }
  }

  /** When the rest after the head step is kept, and the head step keeps its bytes, the whole message is kept. */
  lemma CleanKeepsHead(msg: string, reverse: map<string, string>)
    requires msg != [] && forall name :: name in reverse ==> reverse[name] == ""
    requires CleanMessage(msg[CleanHead(msg, reverse).1..], reverse) == msg[CleanHead(msg, reverse).1..]
    ensures CleanMessage(msg, reverse) == msg
  {
    var n := CleanHead(msg, reverse).1;
    CleanStep(msg, reverse);
    CleanHeadKeeps(msg, reverse);
    TakeDrop(msg, n);
  }

  /** A quoted operator name followed by plain text: the name becomes its display symbol, the rest stays. */
  lemma CleanQuotedOperator(name: string, rest: string, reverse: map<string, string>)
    requires name != "" && '\'' !in name && '\'' !in rest
    requires name in reverse && reverse[name] != ""
    ensures CleanMessage("'" + name + "'" + rest, reverse) == "'" + reverse[name] + "'" + rest
  {
    var msg := "'" + name + "'" + rest;
    assert msg[1..] == name + ("'" + rest);
    QuoteIndexAfter(name, "'" + rest);
    assert msg[1] == name[0];
    assert msg[1..|name| + 1] == name;
    assert msg[|name| + 2..] == rest;
    CleanReplacesQuoted(msg, reverse);
  }

  lemma {:induction false} QuoteIndexAfter(a: string, b: string)
    requires '\'' !in a && |b| > 0 && b[0] == '\''
    ensures QuoteIndex(a + b) == |a|
  {
    if |a| > 0 {
      assert (a + b)[0] == a[0];
      assert (a + b)[1..] == a[1..] + b;
      assert '\'' !in a[1..];
      QuoteIndexAfter(a[1..], b);
    }
  }

  /** No quote comes before the index `QuoteIndex` finds. */
  lemma {:induction false} QuoteIndexFirst(s: string)
    ensures forall j :: 0 <= j < QuoteIndex(s) ==> s[j] != '\''
  {
    if |s| > 0 && s[0] != '\'' {
      QuoteIndexFirst(s[1..]);
      forall j | 0 < j < QuoteIndex(s)
        ensures s[j] != '\''
      {
        assert s[j] == s[1..][j - 1];
      }
    }
  }

  /* ---------------- issues to diagnostics ---------------- */

  /** One issue as a diagnostic: from its position (0-based, clamped at 0) to the end of its line. */
  function DiagnosticOf(content: string, issue: Issue, severity: nat, reverse: map<string, string>): (d: Diagnostic)
    ensures d.range.start.line == d.range.end.line
    ensures d.range.start.line == if issue.line - 1 < 0 then 0 else issue.line - 1
    ensures d.range.start.character == if issue.column < 0 then 0 else issue.column
    ensures d.range.end.character == LineLength(content, d.range.start.line)
    ensures d.severity == severity && d.source == ServerName
    ensures d.message == CleanMessage(issue.message, reverse)
  {
    var line: nat := if issue.line - 1 < 0 then 0 else issue.line - 1;
    var col: nat := if issue.column < 0 then 0 else issue.column;
    Diagnostic(Range(Position(line, col), Position(line, LineLength(content, line))),
               severity, ServerName, CleanMessage(issue.message, reverse))
  }

  /** `issuesToDiagnostics`: one diagnostic per issue, in order. */
  method IssuesToDiagnostics(content: string, issues: seq<Issue>, severity: nat, reverse: map<string, string>)
    returns (diagnostics: seq<Diagnostic>)
    ensures |diagnostics| == |issues|
    ensures forall k :: 0 <= k < |issues| ==> diagnostics[k] == DiagnosticOf(content, issues[k], severity, reverse)
  {
    diagnostics := [];
    for n := 0 to |issues|
      invariant |diagnostics| == n
      invariant forall k :: 0 <= k < n ==> diagnostics[k] == DiagnosticOf(content, issues[k], severity, reverse)
    {
      var e := issues[n];
      var line := e.line - 1;
      var col := e.column;
      if line < 0 {
        line := 0;
      }
      if col < 0 {
        col := 0;
      }
      var startPos := Position(line, col);
      var endPos := EndOfLine(content, line);
      diagnostics := diagnostics + [Diagnostic(Range(startPos, endPos), severity, ServerName, CleanMessage(e.message, reverse))];
    }
  }

  /**
   * `computeDiagnostics`. `parseIssues` are the parser's errors for
   * `content` and `checkIssues` the type checker's errors for the parsed
   * expression; the checker's are consulted only when parsing succeeded.
   */
  method ComputeDiagnostics(content: string, parseIssues: seq<Issue>, checkIssues: seq<Issue>, reverse: map<string, string>)
    returns (diagnostics: seq<Diagnostic>)
    ensures IsBlank(content) ==> diagnostics == []
    ensures !IsBlank(content) && parseIssues != [] ==>
      |diagnostics| == |parseIssues| && forall k :: 0 <= k < |parseIssues| ==>
        diagnostics[k] == DiagnosticOf(content, parseIssues[k], SeverityError, reverse)
    ensures !IsBlank(content) && parseIssues == [] ==>
      |diagnostics| == |checkIssues| && forall k :: 0 <= k < |checkIssues| ==>
        diagnostics[k] == DiagnosticOf(content, checkIssues[k], SeverityWarning, reverse)
  {
    TrimSpaceEmptyIffBlank(content);
    if TrimSpace(content) == "" {
      return [];
    }
    if parseIssues != [] {
      diagnostics := IssuesToDiagnostics(content, parseIssues, SeverityError, reverse);
      return;
    }
    if checkIssues != [] {
      diagnostics := IssuesToDiagnostics(content, checkIssues, SeverityWarning, reverse);
      return;
    }
    return [];
  }

  /** `diagnosticFull`: an unknown document gets a full report without items. */
  method DiagnosticFull(content: Option<string>, parseIssues: seq<Issue>, checkIssues: seq<Issue>, reverse: map<string, string>)
    returns (report: FullDocumentDiagnosticReport)
    ensures report.kind == "full"
    ensures content.None? ==> report.items == []
    ensures content.Some? && IsBlank(content.value) ==> report.items == []
    ensures content.Some? && !IsBlank(content.value) && parseIssues != [] ==>
      |report.items| == |parseIssues| && forall d :: d in report.items ==> d.severity == SeverityError && d.source == ServerName
    ensures content.Some? && !IsBlank(content.value) && parseIssues != [] ==>
      forall k :: 0 <= k < |parseIssues| ==>
        report.items[k] == DiagnosticOf(content.value, parseIssues[k], SeverityError, reverse)
    ensures content.Some? && !IsBlank(content.value) && parseIssues == [] ==>
      |report.items| == |checkIssues| && forall d :: d in report.items ==> d.severity == SeverityWarning && d.source == ServerName
    ensures content.Some? && !IsBlank(content.value) && parseIssues == [] ==>
      forall k :: 0 <= k < |checkIssues| ==>
        report.items[k] == DiagnosticOf(content.value, checkIssues[k], SeverityWarning, reverse)
  {
    if content.None? {
      return FullDocumentDiagnosticReport("full", []);
    }
    var items := ComputeDiagnostics(content.value, parseIssues, checkIssues, reverse);
    report := FullDocumentDiagnosticReport("full", items);
  }
}
