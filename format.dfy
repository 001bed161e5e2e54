/**
 * Document formatting (`textDocument/formatting`).
 *
 * The CEL parser drops comments, so the formatter first splits a document into
 * the leading comment/blank lines, the expression body and the trailing
 * comments, has the body pretty-printed, and glues the comments back on. A
 * document whose comments sit inside the expression body is left untouched.
 * The pretty printer (parse, then `cel.AstToString`) is a parameter here:
 * `None` stands for a parse or print error.
 */
module Format {
  import opened Text
  import opened Protocol

  // ---------------------------------------------------------------------
  // Inline comments: `//` outside any string literal
  // ---------------------------------------------------------------------

  /** Which kinds of string literal the scan is inside. */
  datatype Quotes = Quotes(double: bool, single: bool, tripleDouble: bool, tripleSingle: bool)

  const Outside := Quotes(false, false, false, false)

  predicate InString(q: Quotes)
  {
    q.double || q.single || q.tripleDouble || q.tripleSingle
  }

  /** Three `c` bytes start at `i`. */
  predicate TripleAt(line: string, i: nat, c: char)
  {
    i + 2 < |line| && line[i] == c && line[i + 1] == c && line[i + 2] == c
  }

  /** A `//` starts at `i`. */
  predicate SlashesAt(line: string, i: nat)
  {
    i + 1 < |line| && line[i] == '/' && line[i + 1] == '/'
  }

  /**
   * Where the comment starts when scanning `line` from byte `i` in state `q`:
   * inside a string a backslash skips the next byte; triple quotes open and
   * close triple-quoted strings; single quotes of either kind toggle their
   * string; a `//` outside every string is the comment.
   */
  function CommentFrom(line: string, i: nat, q: Quotes): (r: Option<nat>)
    requires i <= |line|
    ensures r.Some? ==> i <= r.value && SlashesAt(line, r.value)
    decreases |line| - i
  {
    if i == |line| then None
    else if InString(q) && line[i] == '\\' && i + 1 < |line| then CommentFrom(line, i + 2, q)
    else if !q.single && !q.tripleSingle && TripleAt(line, i, '"') && (q.tripleDouble || !q.double) then
      CommentFrom(line, i + 3, q.(tripleDouble := !q.tripleDouble))
    else if !q.double && !q.tripleDouble && TripleAt(line, i, '\'') && (q.tripleSingle || !q.single) then
      CommentFrom(line, i + 3, q.(tripleSingle := !q.tripleSingle))
    else if line[i] == '"' && !q.single && !q.tripleDouble && !q.tripleSingle then
      CommentFrom(line, i + 1, q.(double := !q.double))
    else if line[i] == '\'' && !q.double && !q.tripleDouble && !q.tripleSingle then
      CommentFrom(line, i + 1, q.(single := !q.single))
    else if !InString(q) && SlashesAt(line, i) then Some(i)
    else CommentFrom(line, i + 1, q)
  }

  const Blanks: set<char> := {' ', '\t'}

  /**
   * `stripInlineComment`: the code before the comment with trailing blanks
   * removed, and the comment itself trimmed; `(line, "")` when there is none.
   */
  function StripComment(line: string): (r: (string, string))
    ensures r.1 == "" ==> r.0 == line
    ensures r.1 != "" <==> CommentFrom(line, 0, Outside).Some?
  {
    match CommentFrom(line, 0, Outside)
    case None => (line, "")
    case Some(k) =>
      TrimSpaceKeepsHead(line[k..]);
      (TrimRightSet(line[..k], Blanks), TrimSpace(line[k..]))
  }

  /**
   * What a split line looks like: no comment and the line unchanged, or a
   * `//` at some byte `k`, the code before it with trailing blanks removed,
   * and a comment that starts with `//` and is the rest of the line up to
   * trailing white space.
   */
  lemma StripCommentShape(line: string)
    ensures var r := StripComment(line);
      || r == (line, "")
      || exists k: nat :: SlashesAt(line, k) && r.0 == TrimRightSet(line[..k], Blanks) && "//" <= r.1 && r.1 <= line[k..]
  {
    var r := StripComment(line);
    if r.1 != "" {
      var k := CommentFrom(line, 0, Outside).value;
      TrimSpaceKeepsHead(line[k..]);
      assert SlashesAt(line, k) && r.0 == TrimRightSet(line[..k], Blanks) && "//" <= r.1 && r.1 <= line[k..];
    }
  }

  /** Trimming a string that starts with two non-blank bytes keeps a prefix that still has them. */
  lemma TrimSpaceKeepsHead(s: string)
    requires |s| >= 2 && s[0] !in Whitespace && s[1] !in Whitespace
    ensures TrimSpace(s) <= s && |TrimSpace(s)| >= 2
  {
    var t := TrimRightSet(s, Whitespace);
    assert |t| >= 2;
    assert t[0] == s[0];
  }

  /** The scan loop of `stripInlineComment`, with the four quote flags of the source. */
  method StripInlineComment(line: string) returns (code: string, comment: string)
    ensures (code, comment) == StripComment(line)
  {
    var inDouble, inSingle, inTripleDouble, inTripleSingle := false, false, false, false;
    var i := 0;
    while i < |line|
      invariant i <= |line|
      invariant CommentFrom(line, i, Quotes(inDouble, inSingle, inTripleDouble, inTripleSingle)) == CommentFrom(line, 0, Outside)
      decreases |line| - i
    {
      var ch := line[i];
      if (inDouble || inSingle || inTripleDouble || inTripleSingle) && ch == '\\' && i + 1 < |line| {
        i := i + 2;
        continue;
      }
      if !inSingle && !inTripleSingle && i + 2 < |line| && line[i] == '"' && line[i + 1] == '"' && line[i + 2] == '"' {
        if inTripleDouble {
          inTripleDouble := false;
          i := i + 3;
          continue;
        }
        if !inDouble {
          inTripleDouble := true;
          i := i + 3;
          continue;
        }
      }
      if !inDouble && !inTripleDouble && i + 2 < |line| && line[i] == '\'' && line[i + 1] == '\'' && line[i + 2] == '\'' {
        if inTripleSingle {
          inTripleSingle := false;
          i := i + 3;
          continue;
        }
        if !inSingle {
          inTripleSingle := true;
          i := i + 3;
          continue;
        }
      }
      if ch == '"' && !inSingle && !inTripleDouble && !inTripleSingle {
        inDouble := !inDouble;
        i := i + 1;
        continue;
      }
      if ch == '\'' && !inDouble && !inTripleDouble && !inTripleSingle {
        inSingle := !inSingle;
        i := i + 1;
        continue;
      }
      if !inDouble && !inSingle && !inTripleDouble && !inTripleSingle {
        if ch == '/' && i + 1 < |line| && line[i + 1] == '/' {
          return TrimRightSet(line[..i], Blanks), TrimSpace(line[i..]);
        }
      }
      i := i + 1;
    }
    return line, "";
  }

  /** Outside strings, on a line without quotes, the comment is the first `//`. */
  lemma {:induction false} UnquotedCommentIsFirstSlashes(line: string, i: nat)
    requires i <= |line|
    requires '"' !in line && '\'' !in line
    ensures CommentFrom(line, i, Outside) == if IndexFrom(line, "//", i) == -1 then None else Some(IndexFrom(line, "//", i))
    decreases |line| - i
  {
    if i < |line| {
      if i + 1 < |line| {
        assert line[i..i + 2] == [line[i], line[i + 1]];
      }
      if !SlashesAt(line, i) {
        UnquotedCommentIsFirstSlashes(line, i + 1);
      }
    }
  }

  /** The scanner is inside exactly one kind of string. */
  predicate InOneString(q: Quotes)
  {
    q == Quotes(true, false, false, false) || q == Quotes(false, true, false, false)
    || q == Quotes(false, false, true, false) || q == Quotes(false, false, false, true)
  }

  /** The string the scanner is in ends at byte `k`: its quote, or three of them for a triple-quoted string. */
  predicate ClosesAt(line: string, k: nat, q: Quotes)
  {
    if q.double then k < |line| && line[k] == '"'
    else if q.single then k < |line| && line[k] == '\''
    else if q.tripleDouble then TripleAt(line, k, '"')
    else TripleAt(line, k, '\'')
  }

  /** Bytes taken by the closing quote of the string the scanner is in. */
  function CloseWidth(q: Quotes): nat
  {
    if q.tripleDouble || q.tripleSingle then 3 else 1
  }

  /**
   * `line[i..close]` is the inside of a string: backslash pairs, each an
   * escape whatever its second byte, and other bytes that do not close it.
   */
  predicate StringBody(line: string, i: nat, close: nat, q: Quotes)
    requires i <= close <= |line|
    decreases close - i
  {
    || i == close
    || (line[i] == '\\' && i + 2 <= close && StringBody(line, i + 2, close, q))
    || (line[i] != '\\' && !ClosesAt(line, i, q) && StringBody(line, i + 1, close, q))
  }

  /**
   * Inside a single-, double- or triple-quoted string, everything up to the
   * closing quote is skipped: a `//` in the string is not a comment, an
   * escaped quote does not end it, and the scan resumes outside strings
   * after the closing quote.
   */
  lemma {:induction false} StringSkipped(line: string, i: nat, close: nat, q: Quotes)
    requires InOneString(q)
    requires i <= close <= |line| && ClosesAt(line, close, q)
    requires StringBody(line, i, close, q)
    ensures close + CloseWidth(q) <= |line|
    ensures CommentFrom(line, i, q) == CommentFrom(line, close + CloseWidth(q), Outside)
    decreases close - i
  {
    if i == close {
    } else if line[i] == '\\' && i + 2 <= close && StringBody(line, i + 2, close, q) {
      StringSkipped(line, i + 2, close, q);
    } else {
      StringSkipped(line, i + 1, close, q);
    }
  }

  /** A string inside without backslashes and without its closing quote is a string body. */
  lemma {:induction false} PlainStringBody(line: string, i: nat, close: nat, q: Quotes)
    requires i <= close <= |line|
    requires forall k :: i <= k < close ==> line[k] != '\\' && !ClosesAt(line, k, q)
    ensures StringBody(line, i, close, q)
    decreases close - i
  {
    if i < close {
      PlainStringBody(line, i + 1, close, q);
    }
  }

  /** The `//` of a URL inside a string literal is skipped; the comment starts at the `//` after the literal. */
  lemma QuotedUrlCommentAt(line: string)
    requires line == "f(\"a//b\") // note"
    ensures CommentFrom(line, 0, Outside) == Some(10)
  {
    var inDouble := Quotes(true, false, false, false);
    assert CommentFrom(line, 0, Outside) == CommentFrom(line, 1, Outside);
    assert CommentFrom(line, 1, Outside) == CommentFrom(line, 2, Outside);
    assert CommentFrom(line, 2, Outside) == CommentFrom(line, 3, inDouble);
    PlainStringBody(line, 3, 7, inDouble);
    StringSkipped(line, 3, 7, inDouble);
    assert CommentFrom(line, 8, Outside) == CommentFrom(line, 9, Outside);
    assert CommentFrom(line, 9, Outside) == CommentFrom(line, 10, Outside);
  }

  /** A URL inside a string literal is code, and the comment after it is still split off. */
  lemma QuotedUrlExample(line: string)
    requires line == "f(\"a//b\") // note"
    ensures StripComment(line) == ("f(\"a//b\")", "// note")
  {
    QuotedUrlCommentAt(line);
    assert line[..10][..9] == line[..9];
    TrimRightKeeps(line[..9], Blanks);
    assert line[..9] == "f(\"a//b\")";
    TrimRightKeeps(line[10..], Whitespace);
    TrimLeftKeepsAll(line[10..], Whitespace);
    assert line[10..] == "// note";
  }

  /** An escaped quote does not end a string: the `//` after it is still inside the string. */
  lemma EscapedQuoteCommentAt(line: string)
    requires line == "f(\"a\\\"//b\") // c"
    ensures CommentFrom(line, 0, Outside) == Some(12)
  {
    var inDouble := Quotes(true, false, false, false);
    assert CommentFrom(line, 0, Outside) == CommentFrom(line, 1, Outside);
    assert CommentFrom(line, 1, Outside) == CommentFrom(line, 2, Outside);
    assert CommentFrom(line, 2, Outside) == CommentFrom(line, 3, inDouble);
    assert StringBody(line, 9, 9, inDouble);
    assert StringBody(line, 8, 9, inDouble);
    assert StringBody(line, 7, 9, inDouble);
    assert StringBody(line, 6, 9, inDouble);
    assert StringBody(line, 4, 9, inDouble);
    assert StringBody(line, 3, 9, inDouble);
    StringSkipped(line, 3, 9, inDouble);
    assert CommentFrom(line, 10, Outside) == CommentFrom(line, 11, Outside);
    assert CommentFrom(line, 11, Outside) == CommentFrom(line, 12, Outside);
  }

  /** A lone quote inside a triple-quoted string does not end it, nor does a `//` start a comment there. */
  lemma TripleQuotedCommentAt(line: string)
    requires line == "\"\"\"x\"//y\"\"\" // c"
    ensures CommentFrom(line, 0, Outside) == Some(12)
  {
    var inTriple := Quotes(false, false, true, false);
    assert CommentFrom(line, 0, Outside) == CommentFrom(line, 3, inTriple);
    PlainStringBody(line, 3, 8, inTriple);
    StringSkipped(line, 3, 8, inTriple);
    assert CommentFrom(line, 11, Outside) == CommentFrom(line, 12, Outside);
  }

  lemma TrimRightKeeps(s: string, cutset: set<char>)
    requires |s| > 0 && s[|s| - 1] !in cutset
    ensures TrimRightSet(s, cutset) == s
  {
  }

  lemma TrimLeftKeepsAll(s: string, cutset: set<char>)
    requires |s| > 0 && s[0] !in cutset
    ensures TrimLeftSet(s, cutset) == s
  {
  }

  // ---------------------------------------------------------------------
  // Splitting a document into leading comments, body and trailing comments
  // ---------------------------------------------------------------------

  /** A line that is blank or whose trimmed text starts with `//`. */
  predicate CommentOrBlank(line: string)
  {
    var t := TrimSpace(line);
    t == "" || "//" <= t
  }

  /** The first line at or after `i` that holds code, or `|lines|`. */
  function LeadEnd(lines: seq<string>, i: nat): (r: nat)
    requires i <= |lines|
    ensures i <= r <= |lines|
    ensures forall k :: i <= k < r ==> CommentOrBlank(lines[k])
    ensures r < |lines| ==> !CommentOrBlank(lines[r])
    decreases |lines| - i
  {
    if i < |lines| && CommentOrBlank(lines[i]) then LeadEnd(lines, i + 1) else i
  }

  /** Scanning back from `t`, the start of the run of comment/blank lines that ends the document, never before `lead`. */
  function TrailStart(lines: seq<string>, lead: nat, t: nat): (r: nat)
    requires lead <= t <= |lines|
    ensures lead <= r <= t
    ensures forall k :: r <= k < t ==> CommentOrBlank(lines[k])
    ensures r > lead ==> !CommentOrBlank(lines[r - 1])
    decreases t
  {
    if t > lead && CommentOrBlank(lines[t - 1]) then TrailStart(lines, lead, t - 1) else t
  }

  /** The body holds no comment line, and only its last line may carry an inline comment. */
  predicate BodyClean(body: seq<string>)
  {
    forall i :: 0 <= i < |body| ==>
      !("//" <= TrimSpace(body[i])) && (i < |body| - 1 ==> StripComment(body[i]).1 == "")
  }

  datatype Parts = Parts(leading: string, expr: string, trailing: string, ok: bool)

  /** The body with its inline comment removed, and that comment (or ""). */
  function CleanBody(body: seq<string>): (r: (seq<string>, string))
    ensures |r.0| == |body|
  {
    if |body| == 0 then (body, "")
    else
      var stripped := StripComment(body[|body| - 1]);
      (body[|body| - 1 := stripped.0], stripped.1)
  }

  /** The leading lines with a final newline, or "" when there are none. */
  function LeadingText(lines: seq<string>, lead: nat): string
    requires lead <= |lines|
  {
    if lead > 0 then Join(lines[..lead], '\n') + "\n" else ""
  }

  /** The inline comment after one space, then the trailing lines unless they are all blank. */
  function TrailingText(inline: string, lines: seq<string>, trail: nat): string
    requires trail <= |lines|
  {
    var moved := if inline != "" then " " + inline else "";
    var joined := Join(lines[trail..], '\n');
    if trail < |lines| && TrimSpace(joined) != "" then moved + "\n" + joined else moved
  }

  /** The parts of an accepted document. */
  function Assemble(lines: seq<string>, lead: nat, trail: nat): Parts
    requires lead <= trail <= |lines|
  {
    var cleaned := CleanBody(lines[lead..trail]);
    Parts(LeadingText(lines, lead), Join(cleaned.0, '\n'), TrailingText(cleaned.1, lines, trail), true)
  }

  /** `splitComments` on the lines of the document. */
  function SplitLines(lines: seq<string>): Parts
  {
    var lead := LeadEnd(lines, 0);
    var trail := TrailStart(lines, lead, |lines|);
    if !BodyClean(lines[lead..trail]) then Parts("", "", "", false) else Assemble(lines, lead, trail)
  }

  /** `splitComments`. A refused document gives no text at all. */
  function SplitComments(content: string): (r: Parts)
    ensures !r.ok ==> r.leading == "" && r.expr == "" && r.trailing == ""
  {
    SplitLines(Split(content, '\n'))
  }

  /** The loop that skips the leading comment and blank lines. */
  method SkipLeading(lines: seq<string>) returns (leadEnd: nat)
    ensures leadEnd == LeadEnd(lines, 0)
  {
    leadEnd := 0;
    while leadEnd < |lines|
      invariant leadEnd <= |lines|
      invariant LeadEnd(lines, leadEnd) == LeadEnd(lines, 0)
      decreases |lines| - leadEnd
    {
      var trimmed := TrimSpace(lines[leadEnd]);
      if trimmed == "" || "//" <= trimmed {
        leadEnd := leadEnd + 1;
      } else {
        break;
      }
    }
  }

  /** The loop that walks back over the trailing comment and blank lines. */
  method SkipTrailing(lines: seq<string>, leadEnd: nat) returns (trailStart: nat)
    requires leadEnd <= |lines|
    ensures trailStart == TrailStart(lines, leadEnd, |lines|)
  {
    trailStart := |lines|;
    while trailStart > leadEnd
      invariant leadEnd <= trailStart <= |lines|
      invariant TrailStart(lines, leadEnd, trailStart) == TrailStart(lines, leadEnd, |lines|)
      decreases trailStart
    {
      var trimmed := TrimSpace(lines[trailStart - 1]);
      if trimmed == "" || "//" <= trimmed {
        trailStart := trailStart - 1;
      } else {
        break;
      }
    }
  }

  /** The loop that refuses a body holding a comment line or an inline comment before its last line. */
  method CheckBody(exprLines: seq<string>) returns (ok: bool)
    ensures ok == BodyClean(exprLines)
  {
    var i := 0;
    while i < |exprLines|
      invariant i <= |exprLines|
      invariant forall j :: 0 <= j < i ==>
        !("//" <= TrimSpace(exprLines[j])) && (j < |exprLines| - 1 ==> StripComment(exprLines[j]).1 == "")
      decreases |exprLines| - i
    {
      var trimmed := TrimSpace(exprLines[i]);
      if "//" <= trimmed {
        return false;
      }
      if i < |exprLines| - 1 {
        var _, comment := StripInlineComment(exprLines[i]);
        if comment != "" {
          return false;
        }
      }
      i := i + 1;
    }
    return true;
  }

  /** Strips the inline comment off the last body line, in place. */
  method StripLastLine(body: seq<string>) returns (exprLines: seq<string>, comment: string)
    ensures (exprLines, comment) == CleanBody(body)
  {
    exprLines, comment := body, "";
    if |exprLines| > 0 {
      var lastIdx := |exprLines| - 1;
      var clean;
      clean, comment := StripInlineComment(exprLines[lastIdx]);
      exprLines := exprLines[lastIdx := clean];
    }
  }

  /** Appends the trailing lines unless they are all blank. */
  method AppendTrailingLines(moved: string, lines: seq<string>, trailStart: nat) returns (trailing: string)
    requires trailStart <= |lines|
    ensures var joined := Join(lines[trailStart..], '\n');
      trailing == if trailStart < |lines| && TrimSpace(joined) != "" then moved + "\n" + joined else moved
  {
    trailing := moved;
    if trailStart < |lines| {
      var joined := Join(lines[trailStart..], '\n');
      if TrimSpace(joined) != "" {
        if trailing != "" {
          trailing := trailing + "\n" + joined;
        } else {
          trailing := "\n" + joined;
        }
      }
    }
  }

  /** The assembly of the parts once the body is accepted. */
  method AssembleParts(lines: seq<string>, leadEnd: nat, trailStart: nat) returns (leading: string, expr: string, trailing: string)
    requires leadEnd <= trailStart <= |lines|
    ensures Parts(leading, expr, trailing, true) == Assemble(lines, leadEnd, trailStart)
  {
    leading := "";
    if leadEnd > 0 {
      leading := Join(lines[..leadEnd], '\n') + "\n";
    }
    var exprLines, comment := StripLastLine(lines[leadEnd..trailStart]);
    trailing := "";
    if comment != "" {
      trailing := " " + comment;
    }
    expr := Join(exprLines, '\n');
    trailing := AppendTrailingLines(trailing, lines, trailStart);
  }

  /** `splitComments`: the three loops, then the assembly of the parts. */
  method SplitCommentsLoops(content: string) returns (leading: string, expr: string, trailing: string, ok: bool)
    ensures Parts(leading, expr, trailing, ok) == SplitComments(content)
  {
    var lines := Split(content, '\n');
    var leadEnd := SkipLeading(lines);
    var trailStart := SkipTrailing(lines, leadEnd);
    ok := CheckBody(lines[leadEnd..trailStart]);
    if !ok {
      return "", "", "", false;
    }
    leading, expr, trailing := AssembleParts(lines, leadEnd, trailStart);
  }

  /** A refusal carries no text, and every refused document has a comment inside its body. */
  lemma SplitRefusal(content: string)
    ensures var r := SplitComments(content);
      !r.ok ==> r == Parts("", "", "", false) && exists k :: SlashesAt(content, k)
  {
    var r := SplitComments(content);
    if !r.ok && forall k :: !SlashesAt(content, k) {
      NoSlashesAccepted(content);
    }
  }

  /** A document without any `//` is always split (and hence formatted). */
  lemma NoSlashesAccepted(content: string)
    requires forall k :: !SlashesAt(content, k)
    ensures SplitComments(content).ok
  {
    var lines := Split(content, '\n');
    var lead := LeadEnd(lines, 0);
    var trail := TrailStart(lines, lead, |lines|);
    var body := lines[lead..trail];
    forall i | 0 <= i < |body|
      ensures !("//" <= TrimSpace(body[i])) && StripComment(body[i]).1 == ""
    {
      assert body[i] in lines;
      NoSlashesInPiece(content, body[i]);
      LineWithoutSlashes(body[i]);
    }
    assert BodyClean(body);
  }

  /** A line without `//` is neither a comment line nor carries an inline comment. */
  lemma LineWithoutSlashes(line: string)
    requires forall k :: !SlashesAt(line, k)
    ensures !("//" <= TrimSpace(line)) && StripComment(line).1 == ""
  {
    var t := TrimSpace(line);
    TrimSpaceOccurs(line);
    var off :| OccursAt(line, t, off);
    if "//" <= t {
      assert line[off] == t[0] && line[off + 1] == t[1];
      assert SlashesAt(line, off);
    }
  }

  /** The trimmed text is a slice of the text. */
  lemma TrimSpaceOccurs(s: string)
    ensures exists off :: OccursAt(s, TrimSpace(s), off)
  {
    var t := TrimRightSet(s, Whitespace);
    var r := TrimLeftSet(t, Whitespace);
    var off := |t| - |r|;
    assert r == TrimSpace(s);
    TrimLeftIsSuffix(t, Whitespace);
    assert s[..|t|] == t;
    assert s[off..off + |r|] == t[off..];
    assert OccursAt(s, r, off);
  }

  /** A piece of the split document holds no `//` when the document holds none. */
  lemma NoSlashesInPiece(content: string, piece: string)
    requires forall k :: !SlashesAt(content, k)
    requires piece in Split(content, '\n')
    ensures forall k :: !SlashesAt(piece, k)
  {
    PieceIsSubstring(content, piece);
    var off :| OccursAt(content, piece, off);
    forall k: nat | SlashesAt(piece, k)
      ensures false
    {
      assert SlashesAt(content, off + k);
    }
  }

  /** Every piece of a split string occurs in it. */
  lemma {:induction false} PieceIsSubstring(s: string, piece: string)
    requires piece in Split(s, '\n')
    ensures exists off :: OccursAt(s, piece, off)
  {
    if |s| == 0 || piece == "" {
      assert OccursAt(s, piece, 0);
    } else {
      var s', c := s[..|s| - 1], s[|s| - 1];
      assert s == s' + [c];
      SplitSnoc(s', c, '\n');
      var init := Split(s', '\n');
      if c != '\n' && piece == init[|init| - 1] + [c] {
        LastPieceOccurs(s', c);
      } else {
        assert piece in init by {
          if c != '\n' {
            assert piece in init[..|init| - 1];
          }
        }
        PieceIsSubstring(s', piece);
        var off :| OccursAt(s', piece, off);
        OccursInLonger(s', [c], piece, off);
      }
    }
  }

  /** The last piece, grown by one more non-separator byte, is a suffix of the longer string. */
  lemma LastPieceOccurs(t: string, c: char)
    requires c != '\n'
    ensures var p := Split(t, '\n'); var last := p[|p| - 1];
            |last| <= |t| && OccursAt(t + [c], last + [c], |t| - |last|)
  {
    var p := Split(t, '\n');
    var last := p[|p| - 1];
    LastPieceIsSuffix(t);
    assert (t + [c])[|t| - |last|..|t| - |last| + |last + [c]|] == t[|t| - |last|..] + [c];
  }

  lemma OccursInLonger(a: string, b: string, sub: string, off: int)
    requires OccursAt(a, sub, off)
    ensures OccursAt(a + b, sub, off)
  {
    assert (a + b)[off..off + |sub|] == a[off..off + |sub|];
  }

  /** The last piece of a split string is a suffix of it. */
  lemma {:induction false} LastPieceIsSuffix(s: string)
    ensures var p := Split(s, '\n'); |p[|p| - 1]| <= |s| && s[|s| - |p[|p| - 1]|..] == p[|p| - 1]
  {
    if |s| > 0 && s[|s| - 1] != '\n' {
      var s', c := s[..|s| - 1], s[|s| - 1];
      var init := Split(s', '\n');
      var last := init[|init| - 1];
      assert Split(s, '\n') == init[..|init| - 1] + [last + [c]];
      LastPieceIsSuffix(s');
      assert s[|s| - |last| - 1..] == s'[|s'| - |last|..] + [c];
    }
  }

  /** Joining a run of lines is joining its two halves around one separator. */
  lemma JoinAt(lines: seq<string>, k: nat)
    requires 0 < k < |lines|
    ensures Join(lines, '\n') == Join(lines[..k], '\n') + "\n" + Join(lines[k..], '\n')
  {
    assert lines == lines[..k] + lines[k..];
    JoinAppend(lines[..k], lines[k..], '\n');
  }

  /** A body whose last line has no inline comment is left as it is. */
  lemma CleanBodyWithoutComment(body: seq<string>)
    requires |body| > 0 && StripComment(body[|body| - 1]).1 == ""
    ensures CleanBody(body) == (body, "")
  {
    assert body[|body| - 1 := body[|body| - 1]] == body;
  }

  /** The joined lines from `lead` on: the body, then the trailing lines after a separator. */
  lemma JoinRest(lines: seq<string>, lead: nat, trail: nat)
    requires lead < trail <= |lines|
    ensures Join(lines[lead..], '\n') ==
      Join(lines[lead..trail], '\n') + (if trail < |lines| then "\n" + Join(lines[trail..], '\n') else "")
  {
    var rest := lines[lead..];
    if trail < |lines| {
      assert rest[..trail - lead] == lines[lead..trail] && rest[trail - lead..] == lines[trail..];
      JoinAt(rest, trail - lead);
    } else {
      assert rest == lines[lead..trail];
    }
  }

  /** The joined lines: the leading lines and a separator, then the rest. */
  lemma JoinLead(lines: seq<string>, lead: nat)
    requires lead < |lines|
    ensures Join(lines, '\n') == LeadingText(lines, lead) + Join(lines[lead..], '\n')
  {
    if lead > 0 {
      JoinAt(lines, lead);
    } else {
      assert lines == lines[lead..];
    }
  }

  lemma Concat3(a: string, b: string, c: string)
    ensures a + b + c == a + (b + c)
  {
  }

  /**
   * Nothing moves between the parts: the last body line has no inline
   * comment, and the trailing lines are kept (or there are none).
   */
  predicate Keeps(lines: seq<string>, lead: nat, trail: nat)
    requires lead < trail <= |lines|
  {
    StripComment(lines[trail - 1]).1 == "" && (trail == |lines| || TrimSpace(Join(lines[trail..], '\n')) != "")
  }

  /** A document with a non-empty body in which nothing moves between the parts. */
  predicate NothingMoves(lines: seq<string>)
  {
    var lead := LeadEnd(lines, 0);
    var trail := TrailStart(lines, lead, |lines|);
    lead < trail && Keeps(lines, lead, trail)
  }

  /** When nothing moves, the parts are the leading lines, the body and the trailing lines, as they were. */
  lemma AssembleFields(lines: seq<string>, lead: nat, trail: nat)
    requires lead < trail <= |lines| && Keeps(lines, lead, trail)
    ensures var r := Assemble(lines, lead, trail);
      && r.leading == LeadingText(lines, lead)
      && r.expr == Join(lines[lead..trail], '\n')
      && r.trailing == (if trail < |lines| then "\n" + Join(lines[trail..], '\n') else "")
  {
    var body := lines[lead..trail];
    assert body[|body| - 1] == lines[trail - 1];
    CleanBodyWithoutComment(body);
    var joined := Join(lines[trail..], '\n');
    assert TrailingText("", lines, trail) == if trail < |lines| then "\n" + joined else "";
  }

  /**
   * Nothing is lost when nothing moves: with a non-empty body whose last line
   * has no inline comment, and trailing lines that are not all blank (or none),
   * the three parts put back together are the joined lines.
   */
  lemma AssembleRoundTrip(lines: seq<string>, lead: nat, trail: nat)
    requires lead < trail <= |lines| && Keeps(lines, lead, trail)
    ensures var r := Assemble(lines, lead, trail); r.leading + r.expr + r.trailing == Join(lines, '\n')
  {
    var r := Assemble(lines, lead, trail);
    AssembleFields(lines, lead, trail);
    JoinRest(lines, lead, trail);
    JoinLead(lines, lead);
    Concat3(r.leading, r.expr, r.trailing);
  }

  lemma SplitLinesRoundTrip(lines: seq<string>)
    requires NothingMoves(lines)
    ensures var r := SplitLines(lines);
      r.ok ==> r.leading + r.expr + r.trailing == Join(lines, '\n')
  {
    var lead := LeadEnd(lines, 0);
    var trail := TrailStart(lines, lead, |lines|);
    if BodyClean(lines[lead..trail]) {
      AssembleRoundTrip(lines, lead, trail);
      assert SplitLines(lines) == Assemble(lines, lead, trail);
    }
  }

  /** The same on the document: the parts put back together are the document. */
  lemma SplitRoundTrip(content: string)
    requires NothingMoves(Split(content, '\n'))
    ensures var r := SplitComments(content);
      r.ok ==> r.leading + r.expr + r.trailing == content
  {
    SplitLinesRoundTrip(Split(content, '\n'));
    JoinSplit(content, '\n');
  }

  // ---------------------------------------------------------------------
  // formatCEL and the formatting request
  // ---------------------------------------------------------------------

  /**
   * `formatCEL`: `printer` parses and prints an expression (`None` on a parse
   * or print error). A document that cannot be split is returned unchanged;
   * the final newline of the document is kept.
   */
  function FormatCel(content: string, printer: string -> Option<string>): (r: Option<string>)
    ensures !SplitComments(content).ok ==> r == Some(content)
    ensures r.None? <==> SplitComments(content).ok && printer(SplitComments(content).expr).None?
    ensures r.Some? && HasSuffix(content, "\n") ==> HasSuffix(r.value, "\n")
    ensures r.Some? && SplitComments(content).ok ==>
      var p := SplitComments(content);
      p.leading + printer(p.expr).value + p.trailing <= r.value
  {
    var p := SplitComments(content);
    if !p.ok then Some(content)
    else match printer(p.expr)
      case None => None
      case Some(formatted) =>
        var result := p.leading + formatted + p.trailing;
        if HasSuffix(content, "\n") && !HasSuffix(result, "\n") then Some(result + "\n") else Some(result)
  }

  /** The last position of the document: its last line and that line's length in bytes. */
  function DocumentEnd(content: string): (p: Position)
  {
    var lastNewline := LastIndexOf(content, '\n');
    Position(Count(content, '\n'), if lastNewline == -1 then |content| else |content| - lastNewline - 1)
  }

  /** The end position is the end of the last line of the document. */
  lemma {:induction false} DocumentEndIsLastLine(content: string)
    ensures var pieces := Split(content, '\n');
      DocumentEnd(content) == Position(|pieces| - 1, |pieces[|pieces| - 1]|)
  {
    if |content| > 0 && content[|content| - 1] != '\n' {
      DocumentEndIsLastLine(content[..|content| - 1]);
    }
  }

  /**
   * The formatting handler: no edit for an unknown document, a formatting
   * error or an unchanged text; otherwise one edit replacing the whole document.
   */
  function Formatting(content: Option<string>, printer: string -> Option<string>): (r: Option<seq<TextEdit>>)
    ensures r.Some? ==>
      && content.Some? && |r.value| == 1
      && r.value[0].range == Range(Position(0, 0), DocumentEnd(content.value))
      && Some(r.value[0].newText) == FormatCel(content.value, printer)
      && r.value[0].newText != content.value
    ensures r.None? ==> content.None? || FormatCel(content.value, printer) in {None, Some(content.value)}
  {
    if content.None? then None
    else match FormatCel(content.value, printer)
      case None => None
      case Some(formatted) =>
        if formatted == content.value then None
        else Some([TextEdit(Range(Position(0, 0), DocumentEnd(content.value)), formatted)])
  }

  /**
   * Formatting an already formatted document proposes no edit: when the
   * printer leaves the body as it is and the split loses nothing, there is
   * nothing to change.
   */
  lemma FormattedIsFixedPoint(content: string, printer: string -> Option<string>)
    requires NothingMoves(Split(content, '\n'))
    requires SplitComments(content).ok ==> printer(SplitComments(content).expr) == Some(SplitComments(content).expr)
    ensures Formatting(Some(content), printer).None?
  {
    SplitRoundTrip(content);
  }
}
