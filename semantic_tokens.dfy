/**
 * Semantic tokens (internal/lsp/semantic_tokens.go): every identifier,
 * literal, operator, function and macro name of the expression is
 * classified, placed at its (line, UTF-16 column), sorted by position and
 * sent as the integer encoding of section "Semantic Tokens" of LSP 3.17:
 * five integers per token, line and start character relative to the
 * previous token.
 */
module SemanticTokens {
  import opened Text
  import opened Cel
  import opened Syntax
  import opened Sorting

  /* ---------------- token types and modifiers ---------------- */

  /** Indices into `TypeLegend`. */
  const PropertyType := 0
  const VariableType := 2
  const MethodType := 6
  const FunctionType := 7
  const MacroType := 9
  const KeywordType := 11
  const StringType := 14
  const NumberType := 15
  const TypeType := 16
  const OperatorType := 17

  /** Modifier bits. */
  const DeprecatedModifier := 1
  const DefaultLibraryModifier := 2

  /** The token types announced to the client, in index order. */
  const TypeLegend: seq<string> := [
    "property", "struct", "variable", "enum", "enumMember", "interface", "method", "function",
    "decorator", "macro", "namespace", "keyword", "modifier", "comment", "string", "number",
    "type", "operator"
  ]

  const ModifierLegend: seq<string> := ["deprecated", "defaultLibrary"]

  type TokenType = t: nat | t < 18
  type Modifiers = m: nat | m < 4

  const Two32 := 0x1_0000_0000

  /**
   * What the server needs from the CEL environment: the reverse operator
   * table (`operators.FindReverse`) and the names of the type-conversion
   * functions (`overloads.IsTypeConversionFunction`).
   */
  datatype Env = Env(reverse: map<string, string>, typeConversions: set<string>)

  /* ---------------- classification ---------------- */

  /** An identifier is a keyword, else a variable bound by an enclosing comprehension, else a property. */
  function IdentType(name: string, bound: set<string>): (t: TokenType)
    ensures t == KeywordType <==> IsCelKeyword(name)
    ensures t == VariableType <==> !IsCelKeyword(name) && name in bound
    ensures t == PropertyType <==> !IsCelKeyword(name) && name !in bound
  {
    if IsCelKeyword(name) then KeywordType
    else if name in bound then VariableType
    else PropertyType
  }

  /** Literals: null and booleans are keywords, strings and bytes strings, the three numeric kinds numbers. */
  function LiteralType(kind: LiteralKind): (t: TokenType)
    ensures t == KeywordType <==> kind == NullValue || kind == BoolValue
    ensures t == StringType <==> kind == StringValue || kind == BytesValue
    ensures t == NumberType <==> kind == IntValue || kind == UintValue || kind == DoubleValue
  {
    match kind
    case NullValue => KeywordType
    case BoolValue => KeywordType
    case StringValue => StringType
    case BytesValue => StringType
    case _ => NumberType
  }

  /**
   * A call that is not an operator: macro, else type conversion (with the
   * default-library modifier), else method for a member call, else function.
   */
  function CallType(fn: string, member: bool, env: Env): (r: (TokenType, Modifiers))
    ensures IsCelMacroFunction(fn) ==> r == (MacroType, 0)
    ensures !IsCelMacroFunction(fn) && fn in env.typeConversions ==> r == (TypeType, DefaultLibraryModifier)
    ensures !IsCelMacroFunction(fn) && fn !in env.typeConversions ==>
      r == (if member then MethodType else FunctionType, 0)
    ensures r.1 != 0 <==> r.0 == TypeType
  {
    if IsCelMacroFunction(fn) then (MacroType, 0)
    else if fn in env.typeConversions then (TypeType, DefaultLibraryModifier)
    else if member then (MethodType, 0)
    else (FunctionType, 0)
  }

  /* ---------------- token requests ---------------- */

  /** A call of `collectToken`: a byte range and its classification, not yet checked against the text. */
  datatype Request = Request(byteStart: int, byteEnd: int, semType: TokenType, semMod: Modifiers)

  /** A node's recorded range, converted to bytes; nothing when the node has none. */
  function RangeRequest(info: SourceInfo, text: string, id: int, t: TokenType, m: Modifiers): (r: seq<Request>)
    ensures |r| <= 1
    ensures r != [] <==> id in info.ranges
    ensures r != [] ==>
      var (b, e) := OffsetRangeToByteRange(text, info.ranges[id].start, info.ranges[id].stop);
      r == [Request(b, e, t, m)]
  {
    if id in info.ranges then
      var (b, e) := OffsetRangeToByteRange(text, info.ranges[id].start, info.ranges[id].stop);
      [Request(b, e, t, m)]
    else []
  }

  /** A name span found in the text, as a request. */
  function SpanRequest(span: Option<(int, int)>, t: TokenType, m: Modifiers): (r: seq<Request>)
    ensures r == if span.Some? then [Request(span.value.0, span.value.1, t, m)] else []
  {
    if span.Some? then [Request(span.value.0, span.value.1, t, m)] else []
  }

  /** The token for a call's own name: its recorded range for an operator, its name in the text otherwise. */
  function CallNameRequest(e: Expr, info: SourceInfo, text: string, env: Env): (r: seq<Request>)
    requires e.Call?
    ensures |r| <= 1
    ensures CelOperatorSymbol(env.reverse, e.fn).Some? ==> r == RangeRequest(info, text, e.id, OperatorType, 0)
    ensures CelOperatorSymbol(env.reverse, e.fn).None? ==>
      var (t, m) := CallType(e.fn, e.target.Some?, env);
      r == SpanRequest(if e.target.Some? then AfterDotSpan(info, text, e.target.value.id, e.fn)
                       else NameBeforeSpan(info, text, e.id, e.fn), t, m)
  {
    if CelOperatorSymbol(env.reverse, e.fn).Some? then RangeRequest(info, text, e.id, OperatorType, 0)
    else
      var (t, m) := CallType(e.fn, e.target.Some?, env);
      if e.target.Some? then SpanRequest(AfterDotSpan(info, text, e.target.value.id, e.fn), t, m)
      else SpanRequest(NameBeforeSpan(info, text, e.id, e.fn), t, m)
  }

  /** The variables a comprehension binds in its condition, step and result: the non-empty ones of its two. */
  function Bind(bound: set<string>, iterVar: string, accuVar: string): (r: set<string>)
    ensures forall v :: v in r <==> v in bound || (v != "" && (v == iterVar || v == accuVar))
  {
    bound + (if iterVar != "" then {iterVar} else {}) + (if accuVar != "" then {accuVar} else {})
  }

  /**
   * `walkCELExpr`: the token requests of `e` in walk order. A member
   * call's receiver comes before its name, its arguments after; `bound`
   * holds the comprehension variables in scope.
   */
  function Walk(e: Expr, info: SourceInfo, text: string, env: Env, bound: set<string>): seq<Request>
    decreases e, 1
  {
    match e
    case Unspecified(_) => []
    case Ident(id, name) => RangeRequest(info, text, id, IdentType(name, bound), 0)
    case Literal(id, kind) => RangeRequest(info, text, id, LiteralType(kind), 0)
    case Select(_, operand, field) =>
      if operand.Some? then
        Walk(operand.value, info, text, env, bound) + SpanRequest(AfterDotSpan(info, text, operand.value.id, field), PropertyType, 0)
      else []
    case Call(_, _, target, args) =>
      (if target.Some? then Walk(target.value, info, text, env, bound) else [])
        + CallNameRequest(e, info, text, env)
        + WalkAll(e, args, info, text, env, bound)
    case Comprehension(_, iterVar, accuVar, r, init, cond, step, res) =>
      WalkAll(e, [r, init], info, text, env, bound)
        + WalkAll(e, [cond, step, res], info, text, env, Bind(bound, iterVar, accuVar))
    case _ => WalkAll(e, Children(e), info, text, env, bound)
  }

  function WalkAll(parent: Expr, cs: seq<Expr>, info: SourceInfo, text: string, env: Env, bound: set<string>)
    : seq<Request>
    requires forall k :: 0 <= k < |cs| ==> cs[k] < parent
    decreases parent, 0, |cs|
  {
    if |cs| == 0 then [] else Walk(cs[0], info, text, env, bound) + WalkAll(parent, cs[1..], info, text, env, bound)
  }

  /** A tree in which no comprehension binds anything. */
  predicate ComprehensionFree(e: Expr)
    decreases e, 1
  {
    !e.Comprehension? && ComprehensionFreeAll(e, Children(e))
  }

  predicate ComprehensionFreeAll(parent: Expr, cs: seq<Expr>)
    requires forall k :: 0 <= k < |cs| ==> cs[k] < parent
    decreases parent, 0, |cs|
  {
    |cs| == 0 || (ComprehensionFree(cs[0]) && ComprehensionFreeAll(parent, cs[1..]))
  }

  predicate NoVariableTokens(rs: seq<Request>)
  {
    forall k :: 0 <= k < |rs| ==> rs[k].semType != VariableType
  }

  /** Outside every comprehension no identifier is classified as a variable. */
  lemma {:induction false} FreeTreeHasNoVariables(e: Expr, info: SourceInfo, text: string, env: Env)
    requires ComprehensionFree(e)
    ensures NoVariableTokens(Walk(e, info, text, env, {}))
    decreases e, 1
  {
    var cs := Children(e);
    FreeAllElements(e, cs);
    match e
    case Select(_, operand, _) =>
      if operand.Some? {
        assert cs[0] == operand.value;
        FreeTreeHasNoVariables(operand.value, info, text, env);
      }
    case Call(_, _, target, args) =>
      FreeCallHasNoVariables(e, info, text, env);
    case List(_, _) => FreeAllHasNoVariables(e, cs, info, text, env);
    case Map(_, _) => FreeAllHasNoVariables(e, cs, info, text, env);
    case Struct(_, _, _) => FreeAllHasNoVariables(e, cs, info, text, env);
    case _ =>
  }

  lemma {:induction false} FreeCallHasNoVariables(e: Expr, info: SourceInfo, text: string, env: Env)
    requires e.Call? && forall k :: 0 <= k < |Children(e)| ==> ComprehensionFree(Children(e)[k])
    ensures NoVariableTokens(Walk(e, info, text, env, {}))
    decreases e, 0
  {
    var cs := Children(e);
    assert forall k :: 0 <= k < |e.args| ==> e.args[k] == cs[k];
    FreeAllHasNoVariables(e, e.args, info, text, env);
    if e.target.Some? {
      assert cs[|e.args|] == e.target.value;
      FreeTreeHasNoVariables(e.target.value, info, text, env);
    }
  }

  lemma {:induction false} FreeAllHasNoVariables(parent: Expr, cs: seq<Expr>, info: SourceInfo, text: string, env: Env)
    requires forall k :: 0 <= k < |cs| ==> cs[k] < parent
    requires forall k :: 0 <= k < |cs| ==> ComprehensionFree(cs[k])
    ensures NoVariableTokens(WalkAll(parent, cs, info, text, env, {}))
    decreases parent, 0, |cs|
  {
    if |cs| > 0 {
      FreeTreeHasNoVariables(cs[0], info, text, env);
      FreeAllHasNoVariables(parent, cs[1..], info, text, env);
    }
  }

  lemma {:induction false} FreeAllElements(parent: Expr, cs: seq<Expr>)
    requires forall j :: 0 <= j < |cs| ==> cs[j] < parent
    requires ComprehensionFreeAll(parent, cs)
    ensures forall k :: 0 <= k < |cs| ==> ComprehensionFree(cs[k])
    decreases |cs|
  {
    if |cs| > 0 {
      FreeAllElements(parent, cs[1..]);
      assert forall k :: 1 <= k < |cs| ==> cs[k] == cs[1..][k - 1];
    }
  }

  /**
   * A comprehension's variables are not in scope in its iteration range
   * and accumulator initialiser: when those are free of comprehensions,
   * the tokens walked before the condition hold no variable.
   */
  lemma RangeAndInitAreUnbound(comp: Expr, info: SourceInfo, text: string, env: Env)
    requires comp.Comprehension?
    requires ComprehensionFree(comp.iterRange) && ComprehensionFree(comp.accuInit)
    ensures var head := WalkAll(comp, [comp.iterRange, comp.accuInit], info, text, env, {});
      && Walk(comp, info, text, env, {})[..|head|] == head
      && NoVariableTokens(head)
  {
    var cs := [comp.iterRange, comp.accuInit];
    assert cs[1..][1..] == [];
    FreeAllHasNoVariables(comp, cs, info, text, env);
  }

  /** The parent of a child list only bounds the recursion: the walk is the same under any parent. */
  lemma {:induction false} WalkAllAnyParent(p: Expr, q: Expr, cs: seq<Expr>, info: SourceInfo, text: string, env: Env, bound: set<string>)
    requires forall k :: 0 <= k < |cs| ==> cs[k] < p && cs[k] < q
    ensures WalkAll(p, cs, info, text, env, bound) == WalkAll(q, cs, info, text, env, bound)
    decreases |cs|
  {
    if |cs| > 0 {
      WalkAllAnyParent(p, q, cs[1..], info, text, env, bound);
    }
  }

  /**
   * In any scope, the range and accumulator initialiser of a comprehension
   * are walked first, and in the scope outside it: renaming the
   * comprehension's own variables changes none of their tokens.
   */
  lemma RangeAndInitInOuterScope(comp: Expr, info: SourceInfo, text: string, env: Env, bound: set<string>,
                                 iterVar: string, accuVar: string)
    requires comp.Comprehension?
    ensures var head := WalkAll(comp, [comp.iterRange, comp.accuInit], info, text, env, bound);
      var renamed := comp.(iterVar := iterVar, accuVar := accuVar);
      && head <= Walk(comp, info, text, env, bound)
      && head <= Walk(renamed, info, text, env, bound)
  {
    var renamed := comp.(iterVar := iterVar, accuVar := accuVar);
    WalkAllAnyParent(comp, renamed, [comp.iterRange, comp.accuInit], info, text, env, bound);
  }

  /** The requests for the macro calls the parser expanded (`collectMacroTokens`), in table order. */
  function MacroRequest(info: SourceInfo, text: string, id: int, call: Expr): (r: seq<Request>)
    ensures |r| <= 1
    ensures r != [] ==> call.Call? && IsCelMacroFunction(call.fn) && StartOf(info, id).line > 0
    ensures r != [] ==>
      && r[0].semType == MacroType
      && 0 <= r[0].byteStart <= r[0].byteEnd <= |text| && text[r[0].byteStart..r[0].byteEnd] == call.fn
  {
    if !call.Call? || !IsCelMacroFunction(call.fn) || StartOf(info, id).line <= 0 then []
    else if call.target.Some? then SpanRequest(AfterDotSpan(info, text, call.target.value.id, call.fn), MacroType, 0)
    else SpanRequest(NameBeforeSpan(info, text, id, call.fn), MacroType, 0)
  }

  function MacroRequests(info: SourceInfo, text: string, calls: seq<(int, Expr)>): (r: seq<Request>)
    ensures |r| <= |calls|
    ensures forall k :: 0 <= k < |r| ==> r[k].semType == MacroType
  {
    if |calls| == 0 then []
    else
      var (id, call) := calls[|calls| - 1];
      MacroRequests(info, text, calls[..|calls| - 1]) + MacroRequest(info, text, id, call)
  }

  /** Everything `computeSemanticTokens` asks to collect: the tree walk, then the macro calls. */
  function AllRequests(e: Expr, info: SourceInfo, text: string, env: Env): seq<Request>
  {
    Walk(e, info, text, env, {}) + MacroRequests(info, text, info.macroCalls)
  }

  /* ---------------- UTF-16 length ---------------- */

  /** The `for _, r := range tokenText` loop. */
  method Utf16Length(s: string) returns (length: nat)
    ensures length == Utf16Len(s)
  {
    length := 0;
    var i: nat := 0;
    while i < |s|
      invariant i <= |s|
      invariant length + Utf16LenFrom(s, i) == Utf16Len(s)
      decreases |s| - i
    {
      var (r, size) := DecodeRune(s, i);
      DecodedWidth(s, i);
      length := length + Utf16RuneLen(r);
      i := i + size;
    }
  }

  /** `"héllo"` with its quotes, as UTF-8 bytes: seven UTF-16 units. */
  lemma AccentedStringLength()
    ensures Utf16Len(['"', 'h', 0xC3 as char, 0xA9 as char, 'l', 'l', 'o', '"']) == 7
  {
    var s := ['"', 'h', 0xC3 as char, 0xA9 as char, 'l', 'l', 'o', '"'];
    assert Utf16LenFrom(s, 8) == 0;
    assert Utf16LenFrom(s, 7) == 1;
    assert Utf16LenFrom(s, 6) == 2;
    assert Utf16LenFrom(s, 5) == 3;
    assert Utf16LenFrom(s, 4) == 4;
    assert DecodeRune(s, 2) == (0xE9, 2);
    assert Utf16LenFrom(s, 2) == 5;
    assert Utf16LenFrom(s, 1) == 6;
  }

  /** `"日本語"` with its quotes: three 3-byte runes, five UTF-16 units. */
  lemma CjkStringLength()
    ensures Utf16Len(['"', 0xE6 as char, 0x97 as char, 0xA5 as char, 0xE6 as char, 0x9C as char, 0xAC as char,
                      0xE8 as char, 0xAA as char, 0x9E as char, '"']) == 5
  {
    var s := ['"', 0xE6 as char, 0x97 as char, 0xA5 as char, 0xE6 as char, 0x9C as char, 0xAC as char,
              0xE8 as char, 0xAA as char, 0x9E as char, '"'];
    assert Utf16LenFrom(s, 11) == 0;
    assert Utf16LenFrom(s, 10) == 1;
    assert DecodeRune(s, 7) == (0x8A9E, 3);
    assert Utf16LenFrom(s, 7) == 2;
    assert DecodeRune(s, 4) == (0x672C, 3);
    assert Utf16LenFrom(s, 4) == 3;
    assert DecodeRune(s, 1) == (0x65E5, 3);
    assert Utf16LenFrom(s, 1) == 4;
  }

  /* ---------------- collected tokens ---------------- */

  /** `tokenInfo`: an absolute position, a length in UTF-16 units, a type and modifier bits. */
  datatype TokenInfo = TokenInfo(line: nat, col: nat, length: nat, semType: nat, semMod: nat)

  /**
   * `collectToken`: a request inside the text becomes a token at the
   * (line, column) of its first byte; any other is dropped.
   */
  function TokenOf(content: string, r: Request): (t: Option<TokenInfo>)
    ensures t.Some? <==> 0 <= r.byteStart < r.byteEnd <= |content|
    ensures t.Some? ==>
      && (t.value.line, t.value.col) == LineCol(content, r.byteStart)
      && t.value.length == Utf16Len(content[r.byteStart..r.byteEnd])
      && t.value.semType == r.semType && t.value.semMod == r.semMod
  {
    if r.byteStart < 0 || r.byteEnd <= r.byteStart || r.byteEnd > |content| then None
    else
      var (line, col) := LineCol(content, r.byteStart);
      Some(TokenInfo(line, col, Utf16Len(content[r.byteStart..r.byteEnd]), r.semType, r.semMod))
  }

  function Collected(content: string, rs: seq<Request>): (ts: seq<TokenInfo>)
    ensures |ts| <= |rs|
  {
    if |rs| == 0 then []
    else
      var t := TokenOf(content, rs[|rs| - 1]);
      Collected(content, rs[..|rs| - 1]) + (if t.Some? then [t.value] else [])
  }

  /** One call of `collectToken`. */
  method CollectToken(content: string, r: Request) returns (t: Option<TokenInfo>)
    ensures t == TokenOf(content, r)
  {
    if r.byteStart < 0 || r.byteEnd <= r.byteStart || r.byteEnd > |content| {
      return None;
    }
    var line, col := ByteOffsetToLineCol(content, r.byteStart);
    var length := Utf16Length(content[r.byteStart..r.byteEnd]);
    t := Some(TokenInfo(line, col, length, r.semType, r.semMod));
  }

  /** The `tokens` slice after every request has been offered to `collectToken`. */
  method CollectTokens(content: string, rs: seq<Request>) returns (ts: seq<TokenInfo>)
    ensures ts == Collected(content, rs)
  {
    ts := [];
    var i := 0;
    while i < |rs|
      invariant 0 <= i <= |rs|
      invariant ts == Collected(content, rs[..i])
    {
      var t := CollectToken(content, rs[i]);
      assert rs[..i + 1][..i] == rs[..i];
      if t.Some? {
        ts := ts + [t.value];
      }
      i := i + 1;
    }
    assert rs[..i] == rs;
  }

  /** Every field of the token fits the protocol's unsigned 32-bit integers. */
  predicate Fits(t: TokenInfo)
  {
    t.line < Two32 && t.col < Two32 && t.length < Two32 && t.semType < Two32 && t.semMod < Two32
  }

  predicate AllFit(ts: seq<TokenInfo>)
  {
    forall k :: 0 <= k < |ts| ==> Fits(ts[k])
  }

  lemma {:induction false} LineColFromBound(text: string, offset: int, i: nat, line: nat, col: nat)
    requires i <= |text| && line + col <= i
    ensures var (l, c) := LineColFrom(text, offset, i, line, col); l + c <= |text|
    decreases |text| - i
  {
    if i < offset && i < |text| {
      var (next, line', col') := LineColStep(text, i, line, col);
      DecodedWidth(text, i);
      LineColFromBound(text, offset, next, line', col');
    }
  }

  /** A collected token of a text shorter than 4 GiB fits 32 bits: line, column and length never exceed the byte count. */
  lemma CollectedFit(content: string, rs: seq<Request>)
    requires |content| < Two32
    ensures AllFit(Collected(content, rs))
  {
    if |rs| > 0 {
      CollectedFit(content, rs[..|rs| - 1]);
      var r := rs[|rs| - 1];
      if TokenOf(content, r).Some? {
        LineColFromBound(content, r.byteStart, 0, 0, 0);
      }
    }
  }

  /* ---------------- sorting ---------------- */

  /** `a` sorts no later than `b`: by line, then by column. */
  predicate AtOrBefore(a: TokenInfo, b: TokenInfo)
  {
    a.line < b.line || (a.line == b.line && a.col <= b.col)
  }

  predicate SortedByPosition(ts: seq<TokenInfo>)
  {
    forall p, q :: 0 <= p < q < |ts| ==> AtOrBefore(ts[p], ts[q])
  }

  /** Position order is total and transitive, as `slices.SortFunc` needs. */
  lemma AtOrBeforeOrder()
    ensures Total(AtOrBefore) && Transitive(AtOrBefore)
  {
  }

  /** The `slices.SortFunc` call: the tokens in place, ordered by (line, column). */
  method SortByPosition(a: array<TokenInfo>)
    modifies a
    ensures SortedByPosition(a[..])
    ensures multiset(a[..]) == old(multiset(a[..]))
  {
    AtOrBeforeOrder();
    SortInPlace(a, AtOrBefore);
  }

  /* ---------------- delta encoding ---------------- */

  /** Unsigned 32-bit subtraction and addition, wrapping as Go's `uint32` does. */
  function Sub32(a: nat, b: nat): (r: nat)
    ensures r < Two32
  {
    (a - b) % Two32
  }

  function Add32(a: nat, b: nat): (r: nat)
    ensures r < Two32
  {
    (a + b) % Two32
  }

  /** The encoding loop from the previous token's (line, column) on: five integers per token. */
  function EncodeFrom(ts: seq<TokenInfo>, prevLine: nat, prevCol: nat): (data: seq<nat>)
    ensures |data| == 5 * |ts|
  {
    if |ts| == 0 then []
    else
      var t := ts[0];
      var deltaCol := if prevLine == t.line then Sub32(t.col, prevCol) else t.col;
      [Sub32(t.line, prevLine), deltaCol, t.length, t.semType, t.semMod] + EncodeFrom(ts[1..], t.line, t.col)
  }

  function Encode(ts: seq<TokenInfo>): (data: seq<nat>)
    ensures |data| == 5 * |ts|
  {
    EncodeFrom(ts, 0, 0)
  }

  /**
   * The client's decoding (the reference decoder the tests use, keeping
   * the modifier bits too): the line advances by the delta; the column is
   * absolute on a new line and relative on the same line.
   */
  function DecodeFrom(data: seq<nat>, line: nat, col: nat): (ts: seq<TokenInfo>)
    requires |data| % 5 == 0
    ensures |ts| == |data| / 5
  {
    if |data| == 0 then []
    else
      var l := Add32(line, data[0]);
      var c := if data[0] != 0 then data[1] else Add32(col, data[1]);
      [TokenInfo(l, c, data[2], data[3], data[4])] + DecodeFrom(data[5..], l, c)
  }

  function Decode(data: seq<nat>): seq<TokenInfo>
    requires |data| % 5 == 0
  {
    DecodeFrom(data, 0, 0)
  }

  lemma {:induction false} DecodeEncodeFrom(ts: seq<TokenInfo>, prevLine: nat, prevCol: nat)
    requires AllFit(ts) && prevLine < Two32 && prevCol < Two32
    ensures DecodeFrom(EncodeFrom(ts, prevLine, prevCol), prevLine, prevCol) == ts
  {
    if |ts| > 0 {
      AllFitTail(ts);
      DecodeEncodeFrom(ts[1..], ts[0].line, ts[0].col);
      DecodeEncodeStep(ts, prevLine, prevCol);
    }
  }

  lemma AllFitTail(ts: seq<TokenInfo>)
    requires |ts| > 0 && AllFit(ts)
    ensures Fits(ts[0]) && AllFit(ts[1..])
  {
    assert forall k :: 0 <= k < |ts| - 1 ==> ts[1..][k] == ts[k + 1];
  }

  /** The first token decodes back from its five numbers, given that the rest does. */
  lemma DecodeEncodeStep(ts: seq<TokenInfo>, prevLine: nat, prevCol: nat)
    requires |ts| > 0 && Fits(ts[0]) && prevLine < Two32 && prevCol < Two32
    requires DecodeFrom(EncodeFrom(ts[1..], ts[0].line, ts[0].col), ts[0].line, ts[0].col) == ts[1..]
    ensures DecodeFrom(EncodeFrom(ts, prevLine, prevCol), prevLine, prevCol) == ts
  {
    var t := ts[0];
    var data := EncodeFrom(ts, prevLine, prevCol);
    assert data[5..] == EncodeFrom(ts[1..], t.line, t.col);
    assert Add32(prevLine, Sub32(t.line, prevLine)) == t.line;
    assert data[0] == 0 <==> prevLine == t.line;
    if prevLine == t.line {
      assert Add32(prevCol, Sub32(t.col, prevCol)) == t.col;
    }
    assert [t] + ts[1..] == ts;
  }

  /** Decoding recovers every token whose fields fit 32 bits, in order, sorted or not. */
  lemma DecodeEncode(ts: seq<TokenInfo>)
    requires AllFit(ts)
    ensures Decode(Encode(ts)) == ts
  {
    DecodeEncodeFrom(ts, 0, 0);
  }

  /** The encoding with unbounded integers: what the deltas mean. */
  function DeltasFrom(ts: seq<TokenInfo>, prevLine: nat, prevCol: nat): (data: seq<int>)
  {
    if |ts| == 0 then []
    else
      var t := ts[0];
      [t.line - prevLine, if prevLine == t.line then t.col - prevCol else t.col, t.length, t.semType, t.semMod]
        + DeltasFrom(ts[1..], t.line, t.col)
  }

  lemma {:induction false} SortedEncodingHasNoWrapFrom(ts: seq<TokenInfo>, prevLine: nat, prevCol: nat)
    requires AllFit(ts) && SortedByPosition(ts)
    requires |ts| > 0 ==> AtOrBefore(TokenInfo(prevLine, prevCol, 0, 0, 0), ts[0])
    ensures EncodeFrom(ts, prevLine, prevCol) == DeltasFrom(ts, prevLine, prevCol)
  {
    if |ts| > 0 {
      var t := ts[0];
      assert |ts[1..]| > 0 ==> ts[1..][0] == ts[1];
      SortedEncodingHasNoWrapFrom(ts[1..], t.line, t.col);
    }
  }

  /** Sorted tokens never make the `uint32` subtractions wrap: every delta is the true difference. */
  lemma SortedEncodingHasNoWrap(ts: seq<TokenInfo>)
    requires AllFit(ts) && SortedByPosition(ts)
    ensures Encode(ts) == DeltasFrom(ts, 0, 0)
  {
    SortedEncodingHasNoWrapFrom(ts, 0, 0);
  }

  /** The delta-encoding loop over `prevLine`, `prevCol`. */
  method EncodeTokens(ts: seq<TokenInfo>) returns (encoded: seq<nat>)
    ensures encoded == Encode(ts)
  {
    encoded := [];
    var prevLine: nat, prevCol: nat := 0, 0;
    var i := 0;
    while i < |ts|
      invariant 0 <= i <= |ts|
      invariant encoded + EncodeFrom(ts[i..], prevLine, prevCol) == Encode(ts)
    {
      var t := ts[i];
      var deltaCol := t.col;
      if prevLine == t.line {
        deltaCol := Sub32(t.col, prevCol);
      }
      assert ts[i..][1..] == ts[i + 1..];
      encoded := encoded + [Sub32(t.line, prevLine), deltaCol, t.length, t.semType, t.semMod];
      prevLine, prevCol := t.line, t.col;
      i := i + 1;
    }
  }

  /* ---------------- the request ---------------- */

  /**
   * `computeSemanticTokens`. `parsed` is the parser's result for
   * `content` (none on a parse error). No tokens is no result, never an
   * empty list.
   */
  method ComputeSemanticTokens(content: string, parsed: Option<(Expr, SourceInfo)>, env: Env)
    returns (r: Option<seq<nat>>)
    ensures content == "" || parsed.None? ==> r.None?
    ensures content != "" && parsed.Some? ==>
      var tokens := Collected(content, AllRequests(parsed.value.0, parsed.value.1, content, env));
      && (r.None? <==> tokens == [])
      && (r.Some? ==> |r.value| == 5 * |tokens|)
      && (r.Some? && |content| < Two32 ==>
            var decoded := Decode(r.value);
            SortedByPosition(decoded) && multiset(decoded) == multiset(tokens))
  {
    if content == "" || parsed.None? {
      return None;
    }
    var (e, info) := parsed.value;
    var tokens := CollectTokens(content, AllRequests(e, info, content, env));
    var a := new TokenInfo[|tokens|](k requires 0 <= k < |tokens| => tokens[k]);
    assert a[..] == tokens;
    SortByPosition(a);
    var sorted := a[..];
    var encoded := EncodeTokens(sorted);
    if |encoded| == 0 {
      return None;
    }
    if |content| < Two32 {
      CollectedFit(content, AllRequests(e, info, content, env));
      forall k | 0 <= k < |sorted|
        ensures Fits(sorted[k])
      {
        assert sorted[k] in multiset(tokens);
      }
      DecodeEncode(sorted);
    }
    r := Some(encoded);
  }
}
