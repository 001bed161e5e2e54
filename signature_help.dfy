/**
 * Signature help (internal/lsp/signature_help.go): the innermost call
 * whose parentheses hold the cursor, the argument the cursor is in, and
 * the overload signatures of the called function.
 */
module Signatures {
  import opened Text
  import opened Cel
  import opened Protocol
  import opened Syntax
  import opened Narrowest
  import Hovers

  /* ---------------- parenthesis depth ---------------- */

  function Delta(c: char): int
  {
    if c == '(' then 1 else if c == ')' then -1 else 0
  }

  /** Opening minus closing parentheses in `s`. */
  function Balance(s: string): int
  {
    if |s| == 0 then 0 else Balance(s[..|s| - 1]) + Delta(s[|s| - 1])
  }

  lemma BalanceStep(s: string, i: nat)
    requires i < |s|
    ensures Balance(s[..i + 1]) == Balance(s[..i]) + Delta(s[i])
  {
    assert s[..i + 1][..i] == s[..i];
  }

  /** The matching loop of `findCallAtPosition`, from byte `pos` at depth `depth`. */
  function ParenEndFrom(text: string, pos: nat, depth: int): (e: nat)
    requires pos <= |text|
    ensures pos <= e <= |text|
    decreases |text| - pos
  {
    if pos < |text| && depth > 0 then ParenEndFrom(text, pos + 1, depth + Delta(text[pos])) else pos
  }

  /** Just past the parenthesis that closes the one at `open`; the end of the text when none does. */
  function ParenEnd(text: string, open: nat): (e: nat)
    requires open < |text|
    ensures open < e <= |text|
  {
    ParenEndFrom(text, open + 1, 1)
  }

  lemma {:induction false} ParenEndFromMatches(text: string, open: nat, pos: nat, depth: int)
    requires open < pos <= |text|
    requires depth == Balance(text[open..pos]) && depth >= 0
    requires forall j :: open < j < pos ==> Balance(text[open..j]) > 0
    ensures var e := ParenEndFrom(text, pos, depth);
      && (forall j :: open < j < e ==> Balance(text[open..j]) > 0)
      && (Balance(text[open..e]) == 0 || (e == |text| && Balance(text[open..e]) > 0))
    decreases |text| - pos
  {
    if pos < |text| && depth > 0 {
      BalanceStep(text[open..], pos - open);
      assert text[open..][..pos + 1 - open] == text[open..pos + 1];
      assert text[open..][..pos - open] == text[open..pos];
      ParenEndFromMatches(text, open, pos + 1, depth + Delta(text[pos]));
    }
  }

  /**
   * The span found for a call runs from an opening parenthesis to just
   * past the parenthesis that balances it: every proper prefix is
   * unbalanced, and the whole span is balanced unless the text ends first.
   */
  lemma ParenEndMatches(text: string, open: nat)
    requires open < |text| && text[open] == '('
    ensures var e := ParenEnd(text, open);
      && (forall j :: open < j < e ==> Balance(text[open..j]) > 0)
      && (Balance(text[open..e]) == 0 || (e == |text| && Balance(text[open..e]) > 0))
  {
    assert text[open..open + 1][..0] == [];
    ParenEndFromMatches(text, open, open + 1, 1);
  }

  /** The matching loop itself. */
  method MatchParen(text: string, open: nat) returns (parenEnd: nat)
    requires open < |text|
    ensures parenEnd == ParenEnd(text, open)
  {
    parenEnd := open + 1;
    var depth := 1;
    while parenEnd < |text| && depth > 0
      invariant parenEnd <= |text|
      invariant ParenEndFrom(text, parenEnd, depth) == ParenEnd(text, open)
      decreases |text| - parenEnd
    {
      if text[parenEnd] == '(' {
        depth := depth + 1;
      } else if text[parenEnd] == ')' {
        depth := depth - 1;
      }
      parenEnd := parenEnd + 1;
    }
  }

  /* ---------------- the active parameter ---------------- */

  /** The commas of `s` outside any parentheses opened in `s`. */
  function TopLevelCommas(s: string): (n: nat)
    ensures n <= |s|
  {
    if |s| == 0 then 0
    else TopLevelCommas(s[..|s| - 1]) + (if s[|s| - 1] == ',' && Balance(s[..|s| - 1]) == 0 then 1 else 0)
  }

  /** The bytes `countParametersBeforeCursor` scans: after the parenthesis, before the cursor and the end of the text. */
  function ScanRegion(text: string, open: nat, cursor: int): string
    requires open < |text|
  {
    var stop := if cursor < open + 1 then open + 1 else if cursor > |text| then |text| else cursor;
    text[open + 1..stop]
  }

  const Two32 := 0x1_0000_0000

  /**
   * The final clamp of `countParametersBeforeCursor` as written, on the
   * 32-bit counter: a call without arguments and no comma before the
   * cursor gets `uint32(0 - 1)`.
   */
  function ClampAsWritten(count: nat, argCount: nat): (r: nat)
    ensures r < Two32
  {
    var index := count % Two32;
    if argCount == 0 && index > 0 then 0
    else if index >= argCount then (argCount - 1) % Two32
    else index
  }

  /** The clamp as its comments describe it: no arguments gives 0, otherwise at most the last argument. */
  function Clamp(count: nat, argCount: nat): (r: nat)
    ensures argCount == 0 ==> r == 0
    ensures argCount > 0 ==> r < argCount && (count < argCount ==> r == count) && (count >= argCount ==> r == argCount - 1)
  {
    if argCount == 0 then 0 else if count >= argCount then argCount - 1 else count
  }

  /** The two clamps agree on counts below 2^32 except when there are no arguments and no commas. */
  lemma ClampAgrees(count: nat, argCount: nat)
    requires count < Two32 && argCount < Two32
    ensures argCount == 0 && count == 0 ==> ClampAsWritten(count, argCount) == Two32 - 1 != Clamp(count, argCount)
    ensures argCount > 0 || count > 0 ==> ClampAsWritten(count, argCount) == Clamp(count, argCount)
  {
  }

  /** `countParametersBeforeCursor` with the corrected clamp; `callStart` is where the search for `(` begins. */
  function ParamIndex(text: string, callStart: nat, cursor: int, argCount: nat): nat
    requires callStart <= |text|
  {
    var open := IndexFrom(text, "(", callStart);
    if open == -1 then 0 else Clamp(TopLevelCommas(ScanRegion(text, open, cursor)), argCount)
  }

  /** `countParametersBeforeCursor` as written. */
  function ParamIndexAsWritten(text: string, callStart: nat, cursor: int, argCount: nat): nat
    requires callStart <= |text|
  {
    var open := IndexFrom(text, "(", callStart);
    if open == -1 then 0 else ClampAsWritten(TopLevelCommas(ScanRegion(text, open, cursor)), argCount)
  }

  /** `f()` with the cursor between the parentheses: 2^32 - 1 as written, 0 as intended. */
  lemma EmptyCallParamIndex()
    ensures ParamIndexAsWritten("f()", 1, 2, 0) == Two32 - 1
    ensures ParamIndex("f()", 1, 2, 0) == 0
  {
    assert OccursAt("f()", "(", 1);
    assert ScanRegion("f()", 1, 2) == [];
  }

  /** The comma-counting loop. */
  method CountCommas(text: string, open: nat, cursor: int) returns (count: nat)
    requires open < |text|
    ensures count == TopLevelCommas(ScanRegion(text, open, cursor))
  {
    var region := ScanRegion(text, open, cursor);
    count := 0;
    var depth := 0;
    var i := open + 1;
    while i < |text| && i < cursor
      invariant open + 1 <= i <= |text|
      invariant i == open + 1 || i <= cursor
      invariant text[open + 1..i] <= region
      invariant depth == Balance(text[open + 1..i])
      invariant count == TopLevelCommas(text[open + 1..i])
    {
      BalanceStep(text[open + 1..], i - open - 1);
      assert text[open + 1..][..i + 1 - open - 1] == text[open + 1..i + 1];
      assert text[open + 1..][..i - open - 1] == text[open + 1..i];
      assert text[open + 1..i + 1][..i - open - 1] == text[open + 1..i];
      if text[i] == '(' {
        depth := depth + 1;
      } else if text[i] == ')' {
        depth := depth - 1;
      } else if text[i] == ',' && depth == 0 {
        count := count + 1;
      }
      i := i + 1;
    }
    assert text[open + 1..i] == region;
  }

  /** `countParametersBeforeCursor`, with the clamp corrected. */
  method CountParametersBeforeCursor(text: string, callStart: nat, cursor: int, argCount: nat) returns (index: nat)
    requires callStart <= |text|
    ensures index == ParamIndex(text, callStart, cursor, argCount)
    ensures argCount == 0 ==> index == 0
    ensures argCount > 0 ==> index < argCount
  {
    var open := IndexFrom(text, "(", callStart);
    if open == -1 {
      return 0;
    }
    var count := CountCommas(text, open, cursor);
    index := Clamp(count, argCount);
  }

  /* ---------------- the call under the cursor ---------------- */

  /** A call and the byte span of its parenthesised arguments. */
  datatype CallSite = CallSite(call: Expr, span: Span)

  /** The span of a call's parentheses: from the first `(` at or after the call's start, if there is one. */
  function CallSpan(e: Expr, info: SourceInfo, text: string): (r: Option<Span>)
    ensures r.Some? ==> e.id in info.ranges
    ensures r.Some? ==> 0 <= r.value.start < r.value.end <= |text| && text[r.value.start] == '('
    ensures r.Some? ==> r.value.end == ParenEnd(text, r.value.start)
  {
    if e.id !in info.ranges then None
    else
      var (byteStart, _) := OffsetRangeToByteRange(text, info.ranges[e.id].start, info.ranges[e.id].stop);
      var open := IndexFrom(text, "(", byteStart);
      if open == -1 then None
      else
        assert text[open..open + 1] == "(";
        Some(Span(open, ParenEnd(text, open)))
  }

  predicate ValidSite(text: string, s: CallSite)
  {
    s.call.Call? && 0 <= s.span.start < s.span.end <= |text| && text[s.span.start] == '('
    && s.span.end == ParenEnd(text, s.span.start)
  }

  /**
   * The walk of `findCallAtPosition`: a call's own span, then its
   * arguments, then its receiver; other nodes' children in order.
   */
  function Sites(e: Expr, info: SourceInfo, text: string): (r: seq<CallSite>)
    ensures forall k :: 0 <= k < |r| ==> ValidSite(text, r[k])
    decreases e, 1
  {
    match e
    case Call(_, _, _, _) =>
      var span := CallSpan(e, info, text);
      (if span.Some? then [CallSite(e, span.value)] else []) + SitesAll(e, Children(e), info, text)
    case _ => SitesAll(e, Children(e), info, text)
  }

  function SitesAll(parent: Expr, cs: seq<Expr>, info: SourceInfo, text: string): (r: seq<CallSite>)
    requires forall k :: 0 <= k < |cs| ==> cs[k] < parent
    ensures forall k :: 0 <= k < |r| ==> ValidSite(text, r[k])
    decreases parent, 0, |cs|
  {
    if |cs| == 0 then [] else Sites(cs[0], info, text) + SitesAll(parent, cs[1..], info, text)
  }

  function SiteSpans(sites: seq<CallSite>): (ss: seq<Span>)
    ensures |ss| == |sites|
    ensures forall k :: 0 <= k < |sites| ==> ss[k] == sites[k].span
  {
    if |sites| == 0 then [] else SiteSpans(sites[..|sites| - 1]) + [sites[|sites| - 1].span]
  }

  /* ---------------- signature strings ---------------- */

  /** Some `.` comes before the first `(` of `sig`. */
  predicate DotBeforeParen(sig: string)
  {
    exists k :: 0 <= k < |sig| && sig[k] == '.' && forall j :: 0 <= j <= k ==> sig[j] != '('
  }

  /**
   * `isSignatureMatchingCallType`: a signature without `(` suits every
   * call; otherwise a dot before the `(` marks a member signature, which
   * suits member calls only.
   */
  function MatchesCallType(sig: string, isMember: bool): (r: bool)
    ensures r <==> (forall k :: 0 <= k < |sig| ==> sig[k] != '(') || DotBeforeParen(sig) == isMember
  {
    var open := Index(sig, "(");
    IndexFirst(sig, "(");
    if open == -1 then
      assert forall k :: 0 <= k < |sig| ==> sig[k] != '(' by {
        forall k | 0 <= k < |sig| ensures sig[k] != '(' {
          assert !OccursAt(sig, "(", k);
          assert sig[k..k + 1] == [sig[k]];
        }
      }
      true
    else
      FirstParen(sig, open);
      ('.' in sig[..open]) == isMember
  }

  lemma FirstParen(sig: string, open: nat)
    requires open == Index(sig, "(")
    ensures open < |sig| && sig[open] == '('
    ensures '.' in sig[..open] <==> DotBeforeParen(sig)
  {
    IndexFirst(sig, "(");
    assert sig[open..open + 1] == "(";
    forall j | 0 <= j < open ensures sig[j] != '(' {
      assert !OccursAt(sig, "(", j);
      assert sig[j..j + 1] == [sig[j]];
    }
    if '.' in sig[..open] {
      var k :| 0 <= k < open && sig[..open][k] == '.';
      assert sig[k] == '.';
    }
  }

  /**
   * The pieces of `s` between its commas outside parentheses; the
   * commas are dropped, every other byte is kept in order.
   */
  function Segments(s: string): (parts: seq<string>)
    ensures |parts| == TopLevelCommas(s) + 1
  {
    if |s| == 0 then [""]
    else
      var init := Segments(s[..|s| - 1]);
      var c := s[|s| - 1];
      if c == ',' && Balance(s[..|s| - 1]) == 0 then init + [""]
      else init[..|init| - 1] + [init[|init| - 1] + [c]]
  }

  /** Putting the commas back gives the string again. */
  lemma {:induction false} JoinSegments(s: string)
    ensures Join(Segments(s), ',') == s
  {
    if |s| > 0 {
      var init := Segments(s[..|s| - 1]);
      JoinSegments(s[..|s| - 1]);
      var c := s[|s| - 1];
      if c == ',' && Balance(s[..|s| - 1]) == 0 {
        assert Segments(s)[..|init|] == init;
      } else {
        JoinLast(init, ',', [c]);
      }
      assert s[..|s| - 1] + [c] == s;
    }
  }

  /** The index of the last white-space byte of `s`, or -1. */
  function LastSpace(s: string): (r: int)
    ensures -1 <= r < |s|
    ensures r >= 0 ==> IsSpace(s[r])
    ensures forall k :: r < k < |s| ==> !IsSpace(s[k])
  {
    if |s| == 0 then -1 else if IsSpace(s[|s| - 1]) then |s| - 1 else LastSpace(s[..|s| - 1])
  }

  /**
   * `extractParamName`: the last white-space separated word of the
   * declaration, or the declaration itself when it has no word.
   */
  function ParamName(decl: string): (r: string)
    ensures IsBlank(decl) ==> r == decl
    ensures !IsBlank(decl) ==>
      var t := TrimRightSet(decl, Whitespace);
      && r != [] && |r| <= |t| && r == t[|t| - |r|..]
      && (forall k :: 0 <= k < |r| ==> !IsSpace(r[k]))
      && (|r| == |t| || IsSpace(t[|t| - |r| - 1]))
  {
    if IsBlank(decl) then decl
    else
      var t := TrimRightSet(decl, Whitespace);
      t[LastSpace(t) + 1..]
  }

  /** One parameter label per non-blank segment. */
  function Names(segs: seq<string>): (ns: seq<string>)
    ensures |ns| <= |segs|
  {
    if |segs| == 0 then []
    else
      var last := TrimSpace(segs[|segs| - 1]);
      Names(segs[..|segs| - 1]) + (if last != "" then [SegmentName(segs[|segs| - 1])] else [])
  }

  /** Every label is a non-empty word without white space. */
  lemma {:induction false} NamesAreWords(segs: seq<string>)
    ensures forall n :: n in Names(segs) ==> n != [] && forall k :: 0 <= k < |n| ==> !IsSpace(n[k])
  {
    if |segs| > 0 {
      NamesAreWords(segs[..|segs| - 1]);
    }
  }

  /** The label of a non-blank segment: `extractParamName` of the trimmed segment. */
  function SegmentName(seg: string): (r: string)
    requires TrimSpace(seg) != ""
    ensures r == ParamName(TrimSpace(seg))
    ensures r != [] && forall k :: 0 <= k < |r| ==> !IsSpace(r[k])
  {
    var t := TrimSpace(seg);
    assert t[0] !in Whitespace;
    ParamName(t)
  }

  /**
   * `extractParametersFromSignature`: nothing unless `sig` has a `(`
   * before its last `)` with something between them; otherwise one label
   * per non-blank top-level piece of the text between them, as the loop
   * writes it back rune by rune (an invalid byte becomes U+FFFD).
   */
  function Parameters(sig: string): (ps: seq<string>)
    ensures forall p :: p in ps ==> p != [] && forall k :: 0 <= k < |p| ==> !IsSpace(p[k])
  {
    var open := Index(sig, "(");
    var close := LastIndexOf(sig, ')');
    if open == -1 || close == -1 || open >= close then [] else Labels(sig[open + 1..close])
  }

  /** The labels of the text between the parentheses, written back rune by rune. */
  function Labels(inner: string): (ps: seq<string>)
    ensures forall p :: p in ps ==> p != [] && forall k :: 0 <= k < |p| ==> !IsSpace(p[k])
  {
    if inner == "" then []
    else
      var written := Reencode(inner, 0);
      NamesAreWords(Segments(written));
      Names(Segments(written))
  }

  /** The segments of `s` with the one still being built left out. */
  function Done(s: string): seq<string>
  {
    var segs := Segments(s);
    segs[..|segs| - 1]
  }

  /** The segment being built after `s`: the last of its segments. */
  function Current(s: string): string
  {
    var segs := Segments(s);
    segs[|segs| - 1]
  }

  /** A top-level comma closes the segment being built and starts an empty one. */
  lemma CommaStep(t: string)
    requires Balance(t) == 0
    ensures Balance(t + [',']) == 0
    ensures Done(t + [',']) == Segments(t) && Current(t + [',']) == ""
  {
    var u := t + [','];
    assert u[..|u| - 1] == t;
    var segs := Segments(t);
    assert Segments(u) == segs + [""];
    assert (segs + [""])[..|segs|] == segs;
  }

  /** Any other byte extends the segment being built and moves the depth by its `Delta`. */
  lemma OtherStep(t: string, c: char)
    requires !(c == ',' && Balance(t) == 0)
    ensures Balance(t + [c]) == Balance(t) + Delta(c)
    ensures Done(t + [c]) == Done(t) && Current(t + [c]) == Current(t) + [c]
  {
    var u := t + [c];
    assert u[..|u| - 1] == t;
    var segs := Segments(t);
    var next := segs[..|segs| - 1] + [segs[|segs| - 1] + [c]];
    assert Segments(u) == next;
    assert next[..|segs| - 1] == segs[..|segs| - 1];
  }

  /** No comma and no parenthesis. */
  predicate Plain(w: string)
  {
    forall k :: 0 <= k < |w| ==> w[k] != ',' && w[k] != '(' && w[k] != ')'
  }

  /** Bytes without commas or parentheses extend the segment being built and keep the depth. */
  lemma {:induction false} PlainStep(t: string, w: string)
    requires Plain(w)
    ensures Balance(t + w) == Balance(t)
    ensures Done(t + w) == Done(t) && Current(t + w) == Current(t) + w
    decreases |w|
  {
    if |w| > 0 {
      var v, c := w[..|w| - 1], w[|w| - 1];
      assert Plain(v) by {
        forall k | 0 <= k < |v| ensures v[k] == w[k] {}
      }
      PlainStep(t, v);
      OtherStep(t + v, c);
      assert t + v + [c] == t + w;
      assert v + [c] == w;
    } else {
      assert t + w == t;
    }
  }

  /** The bytes `WriteRune` appends for a rune other than `(`, `)` and `,` contain none of them. */
  lemma EncodedPlain(ch: int)
    requires ch != '(' as int && ch != ')' as int && ch != ',' as int
    ensures Plain(EncodeRune(ch))
  {
  }

  /** The label the segment being built would add, if any. */
  function Pending(current: string): seq<string>
  {
    if TrimSpace(current) != "" then [SegmentName(current)] else []
  }

  /** `Names` of the segments, split at the segment being built. */
  lemma NamesOfSegments(s: string)
    ensures Names(Segments(s)) == Names(Done(s)) + Pending(Current(s))
  {
    NamesSnoc(Segments(s));
  }

  /** The last segment adds its label, if it has one, after the others'. */
  lemma NamesSnoc(segs: seq<string>)
    requires |segs| > 0
    ensures Names(segs) == Names(segs[..|segs| - 1]) + Pending(segs[|segs| - 1])
  {
  }

  /**
   * The splitting loop's state once the bytes `t` have been written: the
   * depth is `Balance(t)`, the builder holds `Current(t)` and the labels
   * so far are those of `Done(t)`.
   */
  predicate Building(t: string, depth: int, current: string, params: seq<string>)
  {
    depth == Balance(t) && current == Current(t) && params == Names(Done(t))
  }

  /**
   * One rune of the splitting loop, as its `switch`: parentheses move the
   * depth, a comma at depth 0 closes the segment being built, and every
   * other rune is written to the builder with `WriteRune`.
   */
  method SplitRune(ch: int, depth: int, current: string, params: seq<string>, ghost t: string)
    returns (depth': int, current': string, params': seq<string>)
    requires Building(t, depth, current, params)
    ensures Building(t + EncodeRune(ch), depth', current', params')
  {
    if ch == '(' as int {
      depth', current', params' := depth + 1, current + EncodeRune(ch), params;
      OtherStep(t, '(');
    } else if ch == ')' as int {
      depth', current', params' := depth - 1, current + EncodeRune(ch), params;
      OtherStep(t, ')');
    } else if ch == ',' as int {
      if depth == 0 {
        var paramStr := TrimSpace(current);
        params' := params;
        if paramStr != "" {
          params' := params + [SegmentName(current)];
        }
        depth', current' := depth, "";
        CommaStep(t);
        NamesOfSegments(t);
      } else {
        depth', current', params' := depth, current + EncodeRune(ch), params;
        OtherStep(t, ',');
      }
    } else {
      depth', current', params' := depth, current + EncodeRune(ch), params;
      EncodedPlain(ch);
      PlainStep(t, EncodeRune(ch));
    }
  }

  /** Writing the rune at byte `i` moves it from what is left to what is written. */
  lemma ReencodeStep(s: string, i: nat, t: string, all: string, ch: int, size: nat, t': string, i': nat)
    requires i < |s| && t + Reencode(s, i) == all && ch == DecodeRune(s, i).0 && size == RuneSize(s, i)
    requires t' == t + EncodeRune(ch) && i' == i + size
    ensures i < i' <= |s| && t' + Reencode(s, i') == all
  {
    ReencodeAt(s, i);
    AppendAssoc(t, EncodeRune(ch), Reencode(s, i'));
  }

  lemma AppendAssoc(a: string, b: string, c: string)
    ensures (a + b) + c == a + (b + c)
  {
  }

  /** Decodes the rune at byte `i` and passes it through the loop's `switch`. */
  method SplitNext(inner: string, i: nat, depth: int, current: string, params: seq<string>, ghost t: string, ghost all: string)
    returns (i': nat, depth': int, current': string, params': seq<string>, ghost t': string)
    requires i < |inner| && t + Reencode(inner, i) == all && Building(t, depth, current, params)
    ensures i < i' <= |inner| && t' + Reencode(inner, i') == all && Building(t', depth', current', params')
  {
    var (ch, size) := DecodeRune(inner, i);
    depth', current', params' := SplitRune(ch, depth, current, params, t);
    t' := t + EncodeRune(ch);
    i' := i + size;
    ReencodeStep(inner, i, t, all, ch, size, t', i');
  }

  /**
   * The splitting loop of `extractParametersFromSignature`, ranging over
   * the runes of the text between the parentheses: the labels are those
   * of that text as `WriteRune` writes it back.
   */
  method SplitParameters(inner: string) returns (params: seq<string>)
    ensures params == Names(Segments(Reencode(inner, 0)))
  {
    params := [];
    var current := "";
    var depth := 0;
    var i := 0;
    ghost var t := "";
    ghost var all := Reencode(inner, 0);
    assert Building(t, depth, current, params) by {
      assert Segments(t) == [""];
    }
    while i < |inner|
      invariant i <= |inner|
      invariant t + Reencode(inner, i) == all
      invariant Building(t, depth, current, params)
      decreases |inner| - i
    {
      i, depth, current, params, t := SplitNext(inner, i, depth, current, params, t, all);
    }
    assert t == all;
    NamesOfSegments(t);
    var paramStr := TrimSpace(current);
    if paramStr != "" {
      params := params + [SegmentName(current)];
    }
  }

  /** `extractParametersFromSignature`. */
  method ExtractParameters(sig: string) returns (params: seq<string>)
    ensures params == Parameters(sig)
  {
    var open := Index(sig, "(");
    var close := LastIndexOf(sig, ')');
    if open == -1 || close == -1 || open >= close {
      return [];
    }
    var inner := sig[open + 1..close];
    if inner == "" {
      return [];
    }
    ParametersBetween(sig, open, close);
    params := SplitParameters(inner);
  }

  /** With a `(` before the last `)`, the labels come from the text between them. */
  lemma ParametersBetween(sig: string, open: int, close: int)
    requires open == Index(sig, "(") && close == LastIndexOf(sig, ')')
    requires 0 <= open < close
    ensures Parameters(sig) == (if sig[open + 1..close] == "" then [] else Names(Segments(Reencode(sig[open + 1..close], 0))))
  {
    var inner := sig[open + 1..close];
    assert Parameters(sig) == Labels(inner);
  }

  /** Between valid UTF-8 parentheses the text is split as it stands. */
  lemma ParametersOfValid(sig: string, open: int, close: int)
    requires open == Index(sig, "(") && close == LastIndexOf(sig, ')')
    requires 0 <= open < close && ValidFrom(sig[open + 1..close], 0)
    ensures Parameters(sig) == Names(Segments(sig[open + 1..close]))
  {
    var inner := sig[open + 1..close];
    ReencodeValid(inner, 0);
    assert inner[0..] == inner;
    if inner == "" {
      assert Segments(inner) == [""];
    }
  }

  /** A stray byte 0xFF in a parameter comes out of the label as U+FFFD. */
  lemma InvalidByteInLabel()
    ensures Parameters(['f', '(', 'x', 0xFF as char, ')']) == [['x'] + ReplacementBytes]
  {
    var sig: string := ['f', '(', 'x', 0xFF as char, ')'];
    var inner := sig[2..4];
    assert sig[0..1] != "(" by { assert sig[0..1][0] == 'f'; }
    assert sig[1..2] == "(" by { assert sig[1..2] == [sig[1]]; }
    assert IndexFrom(sig, "(", 1) == 1;
    assert IndexFrom(sig, "(", 0) == 1;
    assert Index(sig, "(") == 1;
    assert LastIndexOf(sig, ')') == 4;
    assert inner == ['x', 0xFF as char];
    var written := ['x'] + ReplacementBytes;
    assert Reencode(inner, 0) == written by {
      assert Reencode(inner, 1) == ReplacementBytes + Reencode(inner, 2);
    }
    assert Plain(written);
    PlainStep("", written);
    assert Segments("") == [""];
    assert "" + written == written;
    assert Segments(written) == [written];
    WordLabel(written);
  }

  /** A single segment that is one word is its own label. */
  lemma WordLabel(w: string)
    requires w != [] && forall k :: 0 <= k < |w| ==> !IsSpace(w[k])
    ensures Names([w]) == [w]
  {
    assert w[0] !in Whitespace && w[|w| - 1] !in Whitespace;
    assert TrimRightSet(w, Whitespace) == w;
    assert TrimLeftSet(w, Whitespace) == w;
    assert !IsBlank(w);
    assert LastSpace(w) == -1;
    assert w[0..] == w;
    assert [w][..0] == [];
  }

  /* ---------------- signatures ---------------- */

  /** The signature shown when a function has no usable documentation. */
  const Fallback := SignatureInformation("function()", "", [])

  /** A documented signature, with its description and its parameters. */
  function SignatureOf(d: Hovers.Doc): (s: SignatureInformation)
    ensures s.labelText == d.signature && s.documentation == d.description
    ensures s.parameters == Parameters(d.signature)
  {
    SignatureInformation(d.signature, d.description, Parameters(d.signature))
  }

  predicate Usable(d: Hovers.Doc, isMember: bool)
  {
    d.signature != "" && MatchesCallType(d.signature, isMember)
  }

  /** The overloads: the signed children that suit the call, in order. */
  function ChildSignatures(children: seq<Hovers.Doc>, isMember: bool): (r: seq<SignatureInformation>)
    ensures |r| <= |children|
    ensures forall s :: s in r ==> exists k :: 0 <= k < |children| && Usable(children[k], isMember) && s == SignatureOf(children[k])
  {
    if |children| == 0 then []
    else
      var last := children[|children| - 1];
      var init := ChildSignatures(children[..|children| - 1], isMember);
      assert forall s :: s in init ==> exists k :: 0 <= k < |children| - 1 && Usable(children[k], isMember) && s == SignatureOf(children[k]);
      init + (if Usable(last, isMember) then [SignatureOf(last)] else [])
  }

  /** Every usable child is listed. */
  lemma {:induction false} ChildSignaturesComplete(children: seq<Hovers.Doc>, isMember: bool, k: nat)
    requires k < |children| && Usable(children[k], isMember)
    ensures SignatureOf(children[k]) in ChildSignatures(children, isMember)
  {
    if k < |children| - 1 {
      assert children[..|children| - 1][k] == children[k];
      ChildSignaturesComplete(children[..|children| - 1], isMember, k);
    }
  }

  /**
   * `generateSignatures`: the doc's own signature alone when it suits the
   * call; otherwise the suitable overloads; otherwise the fallback. Never
   * empty.
   */
  function SignaturesFor(doc: Option<Hovers.Doc>, isMember: bool): (r: seq<SignatureInformation>)
    ensures |r| > 0
    ensures doc.None? ==> r == [Fallback]
    ensures doc.Some? && Usable(doc.value, isMember) ==> r == [SignatureOf(doc.value)]
    ensures forall s :: s in r ==> s == Fallback || MatchesCallType(s.labelText, isMember)
  {
    match doc
    case None => [Fallback]
    case Some(d) =>
      if Usable(d, isMember) then [SignatureOf(d)]
      else
        var sigs := ChildSignatures(d.children, isMember);
        if |sigs| > 0 then sigs else [Fallback]
  }

  /** The overload loop of `generateSignatures`. */
  method CollectOverloads(children: seq<Hovers.Doc>, isMember: bool) returns (sigs: seq<SignatureInformation>)
    ensures sigs == ChildSignatures(children, isMember)
  {
    sigs := [];
    var i := 0;
    while i < |children|
      invariant i <= |children|
      invariant sigs == ChildSignatures(children[..i], isMember)
    {
      var child := children[i];
      assert children[..i + 1][..i] == children[..i];
      if child.signature != "" && MatchesCallType(child.signature, isMember) {
        var parameters := ExtractParameters(child.signature);
        sigs := sigs + [SignatureInformation(child.signature, child.description, parameters)];
      }
      i := i + 1;
    }
    assert children[..i] == children;
  }

  /** `generateSignatures`. */
  method GenerateSignatures(doc: Option<Hovers.Doc>, isMember: bool) returns (sigs: seq<SignatureInformation>)
    ensures sigs == SignaturesFor(doc, isMember)
  {
    if doc.None? {
      return [Fallback];
    }
    var d := doc.value;
    if d.signature != "" && MatchesCallType(d.signature, isMember) {
      var parameters := ExtractParameters(d.signature);
      return [SignatureInformation(d.signature, d.description, parameters)];
    }
    sigs := CollectOverloads(d.children, isMember);
    if |sigs| == 0 {
      sigs := [Fallback];
    }
  }

  /* ---------------- the request ---------------- */

  /**
   * `computeSignatureHelp`. `parsed` is the parser's result for `content`
   * (none on a parse error) and `target` the byte offset of the requested
   * position; `functions` are the environment's function declarations.
   */
  method ComputeSignatureHelp(content: string, parsed: Option<(Expr, SourceInfo)>, target: int,
                              functions: map<string, Hovers.FunctionDecl>)
    returns (r: Option<SignatureHelp>)
    ensures parsed.None? || target < 0 || target >= |content| ==> r.None?
    ensures parsed.Some? && 0 <= target < |content| ==>
      var sites := Sites(parsed.value.0, parsed.value.1, content);
      var ss := SiteSpans(sites);
      && ((forall j :: 0 <= j < |ss| ==> !Covers(ss[j], target)) ==> r.None?)
      && forall k: nat :: IsBest(ss, target, k) ==>
           var call := sites[k].call;
           && (r.Some? <==> call.fn in functions)
           && (r.Some? ==> r.value == SignatureHelp(SignaturesFor(functions[call.fn].doc, call.target.Some?), 0,
                                                    ParamIndex(content, ss[k].start, target, |call.args|)))
  {
    if parsed.None? {
      return None;
    }
    var (e, info) := parsed.value;
    if target < 0 || target >= |content| {
      return None;
    }
    var sites := Sites(e, info, content);
    var ss := SiteSpans(sites);
    var best := SelectBest(ss, target);
    BestIsBest(ss, target);
    if best.None? {
      return None;
    }
    var site := sites[best.value];
    var paramIndex := CountParametersBeforeCursor(content, site.span.start, target, |site.call.args|);
    if site.call.fn !in functions {
      return None;
    }
    var sigs := GenerateSignatures(functions[site.call.fn].doc, site.call.target.Some?);
    r := Some(SignatureHelp(sigs, 0, paramIndex));
  }
}
