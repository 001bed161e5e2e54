/**
 * Hover (internal/lsp/hover.go): every keyword, operator, function and
 * macro name of the expression is a candidate with its documentation; the
 * hover shown is the narrowest candidate under the cursor.
 */
module Hovers {
  import opened Text
  import opened Cel
  import opened Protocol
  import opened Syntax
  import opened Narrowest

  /* ---------------- documentation ---------------- */

  /** cel-go's `common.Doc`: a name, a signature, a description and child entries (overloads or examples). */
  datatype Doc = Doc(name: string, signature: string, description: string, children: seq<Doc>)

  /** A function declaration: its structured documentation, if any, and its plain description. */
  datatype FunctionDecl = FunctionDecl(doc: Option<Doc>, description: string)

  /** A macro: the function it expands and its documentation, if it has any. */
  datatype MacroDecl = MacroDecl(fnName: string, doc: Option<Doc>)

  /**
   * What hover needs from the CEL environment: the reverse operator
   * table, the type-conversion functions, the declared functions by name
   * and the macros in declaration order.
   */
  datatype Env = Env(reverse: map<string, string>, typeConversions: set<string>,
                     functions: map<string, FunctionDecl>, macros: seq<MacroDecl>)

  /** U+2014 EM DASH, as the three bytes of its UTF-8 encoding. */
  const EmDash: string := [0xE2 as char, 0x80 as char, 0x94 as char]

  /** `celKeywordHover`. */
  function KeywordHover(name: string): (s: string)
    ensures s != "" <==> IsCelKeyword(name)
    ensures s != "" ==> "`" + name + "`" <= s
  {
    if name == "true" then "`true` " + EmDash + " boolean **true** literal"
    else if name == "false" then "`false` " + EmDash + " boolean **false** literal"
    else if name == "null" then "`null` " + EmDash + " **null** value\n\nRepresents the absence of a value. Type: `null_type`."
    else ""
  }

  /** The name in a doc's header: the signature if set, else the override if set, else the doc's name. */
  function HeaderName(doc: Doc, nameOverride: string): (n: string)
    ensures doc.signature != "" ==> n == doc.signature
    ensures doc.signature == "" && nameOverride != "" ==> n == nameOverride
    ensures doc.signature == "" && nameOverride == "" ==> n == doc.name
  {
    if doc.signature != "" then doc.signature
    else if nameOverride != "" then nameOverride
    else doc.name
  }

  predicate HasSignature(d: Doc)
  {
    d.signature != ""
  }

  /** One line per child with a signature. */
  function OverloadLines(children: seq<Doc>): (s: string)
    ensures (forall k :: 0 <= k < |children| ==> !HasSignature(children[k])) ==> s == ""
  {
    if |children| == 0 then ""
    else
      var last := children[|children| - 1];
      OverloadLines(children[..|children| - 1]) + (if HasSignature(last) then "\n- `" + last.signature + "`" else "")
  }

  /** One fenced example per child with a description. */
  function ExampleLines(children: seq<Doc>): (s: string)
    ensures (forall k :: 0 <= k < |children| ==> children[k].description == "") ==> s == ""
  {
    if |children| == 0 then ""
    else
      var last := children[|children| - 1];
      ExampleLines(children[..|children| - 1])
        + (if last.description != "" then "\n```cel\n" + last.description + "\n```" else "")
  }

  /** The header and description part of a rendered doc. */
  function DocHead(doc: Doc, headerPrefix: string, nameOverride: string): string
  {
    var name := HeaderName(doc, nameOverride);
    var header := if name != "" then headerPrefix + "`" + name + "`" else "";
    if doc.description == "" then header
    else if header != "" then header + "\n\n" + doc.description
    else doc.description
  }

  /**
   * `formatCELDoc`: nothing for no doc; otherwise the header, the
   * description, then the children: an overloads section listing the
   * signed children when any child has a signature, else an examples
   * section.
   */
  function FormatDoc(doc: Option<Doc>, headerPrefix: string, nameOverride: string): (s: string)
    ensures doc.None? ==> s == ""
    ensures doc.Some? ==> DocHead(doc.value, headerPrefix, nameOverride) <= s
    ensures doc.Some? && |doc.value.children| > 0 && (exists k :: 0 <= k < |doc.value.children| && HasSignature(doc.value.children[k])) ==>
      s == DocHead(doc.value, headerPrefix, nameOverride) + "\n\n**Overloads**:" + OverloadLines(doc.value.children)
    ensures doc.Some? && |doc.value.children| > 0 && (forall k :: 0 <= k < |doc.value.children| ==> !HasSignature(doc.value.children[k])) ==>
      s == DocHead(doc.value, headerPrefix, nameOverride) + "\n\n**Examples**:" + ExampleLines(doc.value.children)
    ensures doc.Some? && |doc.value.children| == 0 ==> s == DocHead(doc.value, headerPrefix, nameOverride)
  {
    match doc
    case None => ""
    case Some(d) =>
      var head := DocHead(d, headerPrefix, nameOverride);
      if |d.children| == 0 then head
      else if exists k :: 0 <= k < |d.children| && HasSignature(d.children[k]) then
        head + "\n\n**Overloads**:" + OverloadLines(d.children)
      else head + "\n\n**Examples**:" + ExampleLines(d.children)
  }

  /** The index of the first signed child, or the number of children (the `hasSignatures` loop with its `break`). */
  method FindSignedChild(children: seq<Doc>) returns (k: nat)
    ensures k <= |children|
    ensures forall j :: 0 <= j < k ==> !HasSignature(children[j])
    ensures k < |children| ==> HasSignature(children[k])
  {
    k := 0;
    while k < |children|
      invariant k <= |children|
      invariant forall j :: 0 <= j < k ==> !HasSignature(children[j])
    {
      if children[k].signature != "" {
        break;
      }
      k := k + 1;
    }
  }

  /** The header and description, as the builder writes them. */
  method RenderHead(d: Doc, headerPrefix: string, nameOverride: string) returns (b: string)
    ensures b == DocHead(d, headerPrefix, nameOverride)
  {
    b := "";
    var name := d.name;
    if nameOverride != "" {
      name := nameOverride;
    }
    if d.signature != "" {
      name := d.signature;
    }
    if name != "" {
      b := b + headerPrefix + "`" + name + "`";
    }
    if d.description != "" {
      if |b| > 0 {
        b := b + "\n\n";
      }
      b := b + d.description;
    }
  }

  /** The overloads loop: appends one line per signed child. */
  method AppendOverloads(head: string, children: seq<Doc>) returns (b: string)
    ensures b == head + OverloadLines(children)
  {
    b := head;
    var i := 0;
    while i < |children|
      invariant i <= |children|
      invariant b == head + OverloadLines(children[..i])
    {
      assert children[..i + 1][..i] == children[..i];
      if children[i].signature != "" {
        b := b + "\n- `" + children[i].signature + "`";
      }
      i := i + 1;
    }
    assert children[..i] == children;
  }

  /** The examples loop: appends one fenced block per described child. */
  method AppendExamples(head: string, children: seq<Doc>) returns (b: string)
    ensures b == head + ExampleLines(children)
  {
    b := head;
    var i := 0;
    while i < |children|
      invariant i <= |children|
      invariant b == head + ExampleLines(children[..i])
    {
      assert children[..i + 1][..i] == children[..i];
      if children[i].description != "" {
        b := b + "\n```cel\n" + children[i].description + "\n```";
      }
      i := i + 1;
    }
    assert children[..i] == children;
  }

  /** `formatCELDoc` as the source builds it: a builder appended to section by section. */
  method RenderDoc(doc: Option<Doc>, headerPrefix: string, nameOverride: string) returns (b: string)
    ensures b == FormatDoc(doc, headerPrefix, nameOverride)
  {
    if doc.None? {
      return "";
    }
    var d := doc.value;
    b := RenderHead(d, headerPrefix, nameOverride);
    if |d.children| > 0 {
      var first := FindSignedChild(d.children);
      if first < |d.children| {
        b := AppendOverloads(b + "\n\n**Overloads**:", d.children);
      } else {
        b := AppendExamples(b + "\n\n**Examples**:", d.children);
      }
    }
  }

  /**
   * `celFunctionHover`: nothing for an undeclared function; the rendered
   * doc with an operator or type header when there is a doc; otherwise a
   * one-line description.
   */
  function FunctionHover(fn: string, env: Env): (s: string)
    ensures fn !in env.functions ==> s == ""
    ensures fn in env.functions && env.functions[fn].doc.None? ==> s != "" && s[0] == '`'
    ensures fn in env.functions && env.functions[fn].doc.Some? ==>
      s == match CelOperatorSymbol(env.reverse, fn)
           case Some(symbol) => FormatDoc(env.functions[fn].doc, "**Operator**: ", symbol)
           case None => FormatDoc(env.functions[fn].doc, if fn in env.typeConversions then "**Type**: " else "", "")
  {
    if fn !in env.functions then ""
    else
      var decl := env.functions[fn];
      if decl.doc.Some? then
        match CelOperatorSymbol(env.reverse, fn)
        case Some(symbol) => FormatDoc(decl.doc, "**Operator**: ", symbol)
        case None =>
          if fn in env.typeConversions then FormatDoc(decl.doc, "**Type**: ", "")
          else FormatDoc(decl.doc, "", "")
      else if decl.description != "" then "`" + fn + "` " + EmDash + " " + decl.description
      else "`" + fn + "()` " + EmDash + " function"
  }

  /** The first macro declared for `name`, as an index into the macro list. */
  function FirstMacro(macros: seq<MacroDecl>, name: string): (k: nat)
    ensures k <= |macros|
    ensures forall j :: 0 <= j < k ==> macros[j].fnName != name
    ensures k < |macros| ==> macros[k].fnName == name
  {
    if |macros| == 0 then 0
    else if macros[0].fnName == name then 0
    else 1 + FirstMacro(macros[1..], name)
  }

  /** `celMacroHover`: the first macro of that name's rendered doc, else a one-line fallback. */
  function MacroHover(name: string, env: Env): (s: string)
    ensures var k := FirstMacro(env.macros, name);
      s == if k < |env.macros| && env.macros[k].doc.Some? then FormatDoc(env.macros[k].doc, "**Macro**: ", "")
           else "`" + name + "` " + EmDash + " macro"
  {
    var k := FirstMacro(env.macros, name);
    if k < |env.macros| && env.macros[k].doc.Some? then FormatDoc(env.macros[k].doc, "**Macro**: ", "")
    else "`" + name + "` " + EmDash + " macro"
  }

  /* ---------------- candidates ---------------- */

  /** `hoverInfo`: a byte range and its markdown. */
  datatype HoverInfo = HoverInfo(byteStart: int, byteEnd: int, markdown: string)

  /** A span found in the text, as a candidate. */
  function SpanCandidate(span: Option<(int, int)>, markdown: string): (r: seq<HoverInfo>)
    ensures r == if span.Some? then [HoverInfo(span.value.0, span.value.1, markdown)] else []
  {
    if span.Some? then [HoverInfo(span.value.0, span.value.1, markdown)] else []
  }

  /** A node's recorded range, converted to bytes. */
  function RangeCandidate(info: SourceInfo, text: string, id: int, markdown: string): (r: seq<HoverInfo>)
    ensures |r| <= 1 && (r != [] <==> id in info.ranges)
  {
    if id in info.ranges then
      var (b, e) := OffsetRangeToByteRange(text, info.ranges[id].start, info.ranges[id].stop);
      [HoverInfo(b, e, markdown)]
    else []
  }

  /** A literal's candidate: booleans by their own text, null by its keyword; other literals have none. */
  function LiteralCandidate(info: SourceInfo, text: string, id: int, kind: LiteralKind): (r: seq<HoverInfo>)
    requires WellFormed(info, text)
    ensures |r| <= 1
    ensures r != [] ==> id in info.ranges && (kind == BoolValue || kind == NullValue)
    ensures r != [] && kind == NullValue ==> r[0].markdown == KeywordHover("null")
  {
    if id in info.ranges then
      var (b, e) := OffsetRangeToByteRange(text, info.ranges[id].start, info.ranges[id].stop);
      ByteRangeOfNode(info, text, id);
      if b >= 0 && e <= |text| then
        match kind
        case BoolValue => [HoverInfo(b, e, KeywordHover(text[b..e]))]
        case NullValue => [HoverInfo(b, e, KeywordHover("null"))]
        case _ => []
      else []
    else []
  }

  /** A call's own candidate: operators by their recorded range, other non-macro functions by their name in the text. */
  function CallCandidate(e: Expr, info: SourceInfo, text: string, env: Env): (r: seq<HoverInfo>)
    requires e.Call?
    ensures |r| <= 1
    ensures r != [] ==> !IsCelMacroFunction(e.fn) || CelOperatorSymbol(env.reverse, e.fn).Some?
    ensures r != [] ==> r[0].markdown == FunctionHover(e.fn, env)
  {
    var doc := FunctionHover(e.fn, env);
    if CelOperatorSymbol(env.reverse, e.fn).Some? then RangeCandidate(info, text, e.id, doc)
    else if IsCelMacroFunction(e.fn) then []
    else if e.target.Some? then SpanCandidate(AfterDotSpan(info, text, e.target.value.id, e.fn), doc)
    else SpanCandidate(NameBeforeSpan(info, text, e.id, e.fn), doc)
  }

  /**
   * `walkCELExprForHover`: the candidates of `e` in walk order. A member
   * call's receiver comes before its name, its arguments after; a
   * selection contributes only its operand's candidates.
   */
  function Walk(e: Expr, info: SourceInfo, text: string, env: Env): seq<HoverInfo>
    requires WellFormed(info, text)
    decreases e, 1
  {
    match e
    case Unspecified(_) => []
    case Ident(id, name) => if IsCelKeyword(name) then RangeCandidate(info, text, id, KeywordHover(name)) else []
    case Literal(id, kind) => LiteralCandidate(info, text, id, kind)
    case Select(_, operand, _) => if operand.Some? then Walk(operand.value, info, text, env) else []
    case Call(_, _, target, args) =>
      (if target.Some? then Walk(target.value, info, text, env) else [])
        + CallCandidate(e, info, text, env)
        + WalkAll(e, args, info, text, env)
    case _ => WalkAll(e, Children(e), info, text, env)
  }

  function WalkAll(parent: Expr, cs: seq<Expr>, info: SourceInfo, text: string, env: Env): seq<HoverInfo>
    requires WellFormed(info, text)
    requires forall k :: 0 <= k < |cs| ==> cs[k] < parent
    decreases parent, 0, |cs|
  {
    if |cs| == 0 then [] else Walk(cs[0], info, text, env) + WalkAll(parent, cs[1..], info, text, env)
  }

  /** A candidate's text is a keyword's or a declared function's documentation. */
  ghost predicate FromDocs(h: HoverInfo, env: Env)
  {
    (exists n :: h.markdown == KeywordHover(n)) || (exists fn :: h.markdown == FunctionHover(fn, env))
  }

  /** Every candidate the walk finds documents a keyword or a function; macros are found separately. */
  lemma {:induction false} WalkFromDocs(e: Expr, info: SourceInfo, text: string, env: Env)
    requires WellFormed(info, text)
    ensures forall h :: h in Walk(e, info, text, env) ==> FromDocs(h, env)
    decreases e, 1
  {
    match e
    case Unspecified(_) =>
    case Ident(id, name) =>
      if IsCelKeyword(name) && id in info.ranges {
        assert Walk(e, info, text, env)[0].markdown == KeywordHover(name);
      }
    case Literal(id, kind) =>
      LiteralFromDocs(info, text, env, id, kind);
    case Select(_, operand, _) =>
      if operand.Some? {
        WalkFromDocs(operand.value, info, text, env);
      }
    case Call(_, fn, target, args) =>
      if target.Some? {
        WalkFromDocs(target.value, info, text, env);
      }
      CallFromDocs(e, info, text, env);
      WalkAllFromDocs(e, args, info, text, env);
    case _ =>
      WalkAllFromDocs(e, Children(e), info, text, env);
  }

  lemma LiteralFromDocs(info: SourceInfo, text: string, env: Env, id: int, kind: LiteralKind)
    requires WellFormed(info, text)
    ensures forall h :: h in LiteralCandidate(info, text, id, kind) ==> FromDocs(h, env)
  {
    var r := LiteralCandidate(info, text, id, kind);
    if r != [] {
      var (b, t) := OffsetRangeToByteRange(text, info.ranges[id].start, info.ranges[id].stop);
      ByteRangeOfNode(info, text, id);
      if kind == BoolValue {
        assert r[0].markdown == KeywordHover(text[b..t]);
      } else {
        assert r[0].markdown == KeywordHover("null");
      }
    }
  }

  lemma CallFromDocs(e: Expr, info: SourceInfo, text: string, env: Env)
    requires e.Call?
    ensures forall h :: h in CallCandidate(e, info, text, env) ==> FromDocs(h, env)
  {
    var own := CallCandidate(e, info, text, env);
    if own != [] {
      assert own[0].markdown == FunctionHover(e.fn, env);
    }
  }

  lemma {:induction false} WalkAllFromDocs(parent: Expr, cs: seq<Expr>, info: SourceInfo, text: string, env: Env)
    requires WellFormed(info, text)
    requires forall k :: 0 <= k < |cs| ==> cs[k] < parent
    ensures forall h :: h in WalkAll(parent, cs, info, text, env) ==> FromDocs(h, env)
    decreases parent, 0, |cs|
  {
    if |cs| > 0 {
      WalkFromDocs(cs[0], info, text, env);
      WalkAllFromDocs(parent, cs[1..], info, text, env);
    }
  }

  /** `collectMacroHovers` for one expanded macro call. */
  function MacroCandidate(info: SourceInfo, text: string, env: Env, id: int, call: Expr): (r: seq<HoverInfo>)
    ensures |r| <= 1
    ensures r != [] ==> call.Call? && IsCelMacroFunction(call.fn) && r[0].markdown == MacroHover(call.fn, env) != ""
  {
    if !call.Call? || !IsCelMacroFunction(call.fn) then []
    else
      var doc := MacroHover(call.fn, env);
      if doc == "" || StartOf(info, id).line <= 0 then []
      else if call.target.Some? then SpanCandidate(AfterDotSpan(info, text, call.target.value.id, call.fn), doc)
      else SpanCandidate(NameBeforeSpan(info, text, id, call.fn), doc)
  }

  function MacroCandidates(info: SourceInfo, text: string, env: Env, calls: seq<(int, Expr)>): (r: seq<HoverInfo>)
    ensures |r| <= |calls|
  {
    if |calls| == 0 then []
    else
      var (id, call) := calls[|calls| - 1];
      MacroCandidates(info, text, env, calls[..|calls| - 1]) + MacroCandidate(info, text, env, id, call)
  }

  function AllCandidates(e: Expr, info: SourceInfo, text: string, env: Env): seq<HoverInfo>
    requires WellFormed(info, text)
  {
    Walk(e, info, text, env) + MacroCandidates(info, text, env, info.macroCalls)
  }

  /** `collectHover`'s test: a non-empty range inside the text, with non-empty markdown. */
  predicate Acceptable(content: string, h: HoverInfo)
  {
    0 <= h.byteStart < h.byteEnd <= |content| && h.markdown != ""
  }

  /** The candidates `collectHover` keeps, in order. */
  function Kept(content: string, hs: seq<HoverInfo>): (ks: seq<HoverInfo>)
    ensures |ks| <= |hs|
    ensures forall h :: h in ks <==> h in hs && Acceptable(content, h)
  {
    if |hs| == 0 then []
    else
      var last := hs[|hs| - 1];
      assert hs == hs[..|hs| - 1] + [last];
      Kept(content, hs[..|hs| - 1]) + (if Acceptable(content, last) then [last] else [])
  }

  /* ---------------- selection ---------------- */

  /** The candidates' byte spans, in order. */
  function SpansOf(hs: seq<HoverInfo>): (ss: seq<Span>)
    ensures |ss| == |hs|
    ensures forall k :: 0 <= k < |hs| ==> ss[k] == Span(hs[k].byteStart, hs[k].byteEnd)
  {
    if |hs| == 0 then [] else SpansOf(hs[..|hs| - 1]) + [Span(hs[|hs| - 1].byteStart, hs[|hs| - 1].byteEnd)]
  }

  /** The hover for a chosen candidate: its markdown over its range. */
  function HoverOf(content: string, h: HoverInfo): Hover
  {
    Hover(h.markdown, SpanRange(content, h.byteStart, h.byteEnd))
  }

  /**
   * `computeHover`. `parsed` is the parser's result for `content` (none on
   * a parse error) and `target` the byte offset of the requested
   * position.
   */
  method ComputeHover(content: string, parsed: Option<(Expr, SourceInfo)>, target: int, env: Env)
    returns (r: Option<Hover>)
    requires parsed.Some? ==> WellFormed(parsed.value.1, content)
    ensures parsed.None? || target < 0 || target >= |content| ==> r.None?
    ensures parsed.Some? && 0 <= target < |content| ==>
      var hs := Kept(content, AllCandidates(parsed.value.0, parsed.value.1, content, env));
      var ss := SpansOf(hs);
      && (r.None? <==> forall j :: 0 <= j < |ss| ==> !Covers(ss[j], target))
      && (r.Some? ==> exists k: nat :: IsBest(ss, target, k) && r.value == HoverOf(content, hs[k]))
  {
    if parsed.None? {
      return None;
    }
    var (e, info) := parsed.value;
    if target < 0 || target >= |content| {
      return None;
    }
    var hs := Kept(content, AllCandidates(e, info, content, env));
    var ss := SpansOf(hs);
    var best := SelectBest(ss, target);
    BestIsBest(ss, target);
    if best.None? {
      return None;
    }
    var h := hs[best.value];
    var startLine, startCol := ByteOffsetToLineCol(content, h.byteStart);
    var endLine, endCol := ByteOffsetToLineCol(content, h.byteEnd);
    r := Some(Hover(h.markdown, Range(Position(startLine, startCol), Position(endLine, endCol))));
    assert r.value == HoverOf(content, hs[best.value]);
  }
}
