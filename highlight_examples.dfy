/**
 * Worked examples of document highlights on small CEL expressions: which
 * ranges come back for the identifier under the cursor. The trees are
 * described by their shape and their recorded ranges, not spelled out.
 */
module HighlightExamples {
  import opened Text
  import opened Cel
  import opened Protocol
  import opened Syntax
  import opened Rename
  import opened Highlight

  /** Columns `c0` to `c1` of the first line. */
  function R(c0: nat, c1: nat): Range { Range(Position(0, c0), Position(0, c1)) }

  /** On one line of ASCII text a recorded range becomes the same columns on line 0. */
  lemma SingleLineRange(text: string, start: nat, stop: nat)
    requires IsAscii(text) && '\n' !in text && start <= stop <= |text|
    ensures RangeOf(text, OffsetRange(start, stop)) == Range(Position(0, start), Position(0, stop))
  {
    RuneToByteAscii(text, start);
    SingleLineAscii(text, start);
    SingleLineAscii(text, stop);
  }

  /** A leaf's occurrences are its own. */
  lemma OccurrencesLeaf(e: Expr, info: SourceInfo, text: string, name: string)
    requires Children(e) == []
    ensures Occurrences(e, info, text, name) == OwnOccurrence(e, info, text, name)
  {
    OccurrencesUnfold(e, info, text, name);
  }

  lemma PreorderAllTwo(e: Expr)
    requires |Children(e)| == 2
    ensures PreorderAll(e, Children(e)) == Preorder(Children(e)[0]) + Preorder(Children(e)[1])
  {
    var cs := Children(e);
    assert PreorderAll(e, cs) == Preorder(cs[0]) + PreorderAll(e, cs[1..]);
    assert PreorderAll(e, cs[1..]) == Preorder(cs[1]) + PreorderAll(e, cs[1..][1..]);
    assert cs[1..][1..] == [];
  }

  /** A node that is no occurrence itself, with two children: the first child's occurrences, then the second's. */
  lemma OccurrencesOfPair(e: Expr, x: Expr, y: Expr, info: SourceInfo, text: string, name: string)
    requires Children(e) == [x, y] && !e.Ident?
    ensures Occurrences(e, info, text, name) == Occurrences(x, info, text, name) + Occurrences(y, info, text, name)
  {
    OccurrencesUnfold(e, info, text, name);
    PreorderAllTwo(e);
    OccurrencesSplit(Preorder(x), Preorder(y), info, text, name);
  }

  /** `(a + b) + c` over three identifiers. */
  predicate SumOfThree(t: Expr, a: Expr, b: Expr, c: Expr)
  {
    && t.Call? && t.fn == "_+_" && t.target.None? && |t.args| == 2
    && t.args[0].Call? && t.args[0].fn == "_+_" && t.args[0].target.None? && t.args[0].args == [a, b]
    && t.args[1] == c
  }

  lemma SumOfThreeOccurrences(t: Expr, a: Expr, b: Expr, c: Expr, info: SourceInfo, text: string, name: string)
    requires SumOfThree(t, a, b, c) && a.Ident? && b.Ident? && c.Ident?
    ensures Occurrences(t, info, text, name)
         == OwnOccurrence(a, info, text, name) + OwnOccurrence(b, info, text, name) + OwnOccurrence(c, info, text, name)
  {
    var inner := t.args[0];
    OccurrencesLeaf(a, info, text, name);
    OccurrencesLeaf(b, info, text, name);
    OccurrencesLeaf(c, info, text, name);
    assert Children(inner) == [a, b];
    OccurrencesOfPair(inner, a, b, info, text, name);
    assert Children(t) == [inner, c];
    OccurrencesOfPair(t, inner, c, info, text, name);
  }

  lemma XTextFacts(text: string)
    requires text == "x + x + x"
    ensures IsAscii(text) && '\n' !in text && |text| == 9
  {
    assert forall k :: 0 <= k < |text| ==> text[k] == 'x' || text[k] == ' ' || text[k] == '+';
  }

  lemma XLeaf(n: Expr, info: SourceInfo, text: string, c0: nat)
    requires text == "x + x + x" && n.Ident? && n.name == "x"
    requires n.id in info.ranges && info.ranges[n.id] == OffsetRange(c0, c0 + 1) && c0 + 1 <= 9
    ensures OwnOccurrence(n, info, text, "x") == [R(c0, c0 + 1)]
  {
    XTextFacts(text);
    SingleLineRange(text, c0, c0 + 1);
  }

  /**
   * `x + x + x`: whichever identifier the cursor is on, the scope is the
   * whole expression and the highlights are columns 0-1, 4-5 and 8-9.
   */
  lemma TopLevelExample(t: Expr, a: Expr, b: Expr, c: Expr, info: SourceInfo, text: string, exprId: int)
    requires text == "x + x + x" && WellFormed(info, text)
    requires SumOfThree(t, a, b, c) && a == Ident(a.id, "x") && b == Ident(b.id, "x") && c == Ident(c.id, "x")
    requires a.id in info.ranges && info.ranges[a.id] == OffsetRange(0, 1)
    requires b.id in info.ranges && info.ranges[b.id] == OffsetRange(4, 5)
    requires c.id in info.ranges && info.ranges[c.id] == OffsetRange(8, 9)
    ensures DetermineScope(exprId, "x", t) == TopLevel
    ensures Occurrences(t, info, text, "x") == [R(0, 1), R(4, 5), R(8, 9)]
    ensures HighlightsFor(t, info, text, Identifier("x", exprId, TopLevelKind))
         == [DocumentHighlight(R(0, 1)), DocumentHighlight(R(4, 5)), DocumentHighlight(R(8, 9))]
  {
    SumOfThreeOccurrences(t, a, b, c, info, text, "x");
    XLeaf(a, info, text, 0);
    XLeaf(b, info, text, 4);
    XLeaf(c, info, text, 8);
    SumOfThreeScope(t, a, b, c, exprId);
    HighlightsFromScope(t, info, text, Identifier("x", exprId, TopLevelKind), TopLevel, [R(0, 1), R(4, 5), R(8, 9)]);
    HighlightsThree(R(0, 1), R(4, 5), R(8, 9));
  }

  lemma SumOfThreeScope(t: Expr, a: Expr, b: Expr, c: Expr, exprId: int)
    requires SumOfThree(t, a, b, c) && a.Ident? && b.Ident? && c.Ident?
    ensures DetermineScope(exprId, "x", t) == TopLevel
  {
    var inner := t.args[0];
    assert Children(inner) == [a, b];
    assert Children(t) == [inner, c];
    PreorderAllTwo(inner);
    PreorderAllTwo(t);
    assert Preorder(t) == [t, inner, a, b, c];
    var q := LoopVarOf(exprId, "x");
    assert forall j :: 0 <= j < 5 ==> !Matches(q, Preorder(t)[j]);
  }

  lemma MapTextFacts(text: string)
    requires text == "[1, 2, 3].map(x, x * 2)"
    ensures IsAscii(text) && '\n' !in text && |text| == 23
    ensures text[9] == '.' && text[10] == 'm' && text[11] == 'a' && text[12] == 'p'
    ensures text[13] == '(' && text[14] == 'x' && text[15] == ','
  {
    assert forall k :: 0 <= k < |text| ==> text[k] as int < 128 && text[k] != '\n';
  }

  lemma MapDeclarationScan(text: string)
    requires |text| == 23
    requires text[9] == '.' && text[10] == 'm' && text[11] == 'a' && text[12] == 'p'
    requires text[13] == '(' && text[14] == 'x' && text[15] == ','
    ensures FirstWordFrom(text, "x", 9) == Some(14)
  {
    assert text[14..15] == "x";
    assert WordAt(text, "x", 14);
    assert text[9..10][0] == '.' && text[10..11][0] == 'm' && text[11..12][0] == 'a';
    assert text[12..13][0] == 'p' && text[13..14][0] == '(';
    assert FirstWordFrom(text, "x", 13) == Some(14);
    assert FirstWordFrom(text, "x", 11) == Some(14);
  }

  /** The results of `f` on `es`, one after the other. */
  function ConcatMap(es: seq<Expr>, f: Expr -> seq<Range>): seq<Range>
  {
    if |es| == 0 then [] else ConcatMap(es[..|es| - 1], f) + f(es[|es| - 1])
  }

  lemma {:induction false} OccurrencesInConcatMap(es: seq<Expr>, info: SourceInfo, text: string, name: string)
    ensures OccurrencesIn(es, info, text, name) == ConcatMap(es, e => Occurrences(e, info, text, name))
  {
    if |es| > 0 {
      OccurrencesInConcatMap(es[..|es| - 1], info, text, name);
    }
  }

  /** `ConcatMap` over five expressions. */
  lemma ConcatMapFive(a: Expr, b: Expr, c: Expr, d: Expr, g: Expr, f: Expr -> seq<Range>)
    ensures ConcatMap([a, b, c, d, g], f) == f(a) + f(b) + f(c) + f(d) + f(g)
  {
    assert [a, b, c, d, g][..4] == [a, b, c, d];
    assert ConcatMap([a, b, c, d, g], f) == ConcatMap([a, b, c, d], f) + f(g);
    assert [a, b, c, d][..3] == [a, b, c];
    assert ConcatMap([a, b, c, d], f) == ConcatMap([a, b, c], f) + f(d);
    assert [a, b, c][..2] == [a, b];
    assert ConcatMap([a, b, c], f) == ConcatMap([a, b], f) + f(c);
    assert [a, b][..1] == [a] && [a][..0] == [];
    assert ConcatMap([a], f) == [] + f(a) == f(a);
    assert ConcatMap([a, b], f) == f(a) + f(b);
  }

  /** On one line of ASCII text a byte span becomes the same columns on line 0. */
  lemma SingleLineSpan(text: string, b: nat, e: nat)
    requires IsAscii(text) && '\n' !in text && b <= e <= |text|
    ensures SpanRange(text, b, e) == Range(Position(0, b), Position(0, e))
  {
    SingleLineAscii(text, b);
    SingleLineAscii(text, e);
  }

  /** The map example's declaration: the scan from the list's end finds `x` at byte 14. */
  lemma MapDeclaration(comp: Expr, info: SourceInfo, text: string)
    requires WellFormed(info, text) && comp.Comprehension? && comp.iterVar == "x"
    requires IsAscii(text) && '\n' !in text && |text| == 23
    requires comp.iterRange.id in info.ranges && info.ranges[comp.iterRange.id] == OffsetRange(0, 9)
    requires FirstWordFrom(text, "x", 9) == Some(14)
    ensures ExprFormDeclaration(comp, info, text, "x", Highlighting) == [R(14, 15)]
  {
    RuneToByteAscii(text, 0);
    RuneToByteAscii(text, 9);
    assert ScanStart(comp, info, text, Highlighting) == Some(9);
    SingleLineSpan(text, 14, 15);
  }

  /** Of five expressions only the fourth has occurrences. */
  lemma OnlyFourthOccurs(a: Expr, b: Expr, c: Expr, d: Expr, f: Expr, rs: seq<Range>, info: SourceInfo, text: string, name: string)
    requires Occurrences(a, info, text, name) == [] && Occurrences(b, info, text, name) == []
    requires Occurrences(c, info, text, name) == [] && Occurrences(f, info, text, name) == []
    requires Occurrences(d, info, text, name) == rs
    ensures OccurrencesIn([a, b, c, d, f], info, text, name) == rs
  {
    OccurrencesInConcatMap([a, b, c, d, f], info, text, name);
    ConcatMapFive(a, b, c, d, f, e => Occurrences(e, info, text, name));
  }

  /**
   * `[1, 2, 3].map(x, x * 2)` parsed as an expanded comprehension: the loop
   * variable's scope is the comprehension, its declaration is found after
   * the list, and the highlights are columns 14-15 and 17-18.
   */
  lemma MapExample(comp: Expr, info: SourceInfo, text: string)
    requires text == "[1, 2, 3].map(x, x * 2)" && WellFormed(info, text)
    requires comp.Comprehension? && comp.iterVar == "x"
    requires comp.iterRange.id in info.ranges && info.ranges[comp.iterRange.id] == OffsetRange(0, 9)
    requires Occurrences(comp.iterRange, info, text, "x") == []
    requires Occurrences(comp.accuInit, info, text, "x") == []
    requires Occurrences(comp.loopCondition, info, text, "x") == []
    requires Occurrences(comp.loopStep, info, text, "x") == [R(17, 18)]
    requires Occurrences(comp.result, info, text, "x") == []
    ensures DetermineScope(comp.id, "x", comp) == LoopVar(comp.id, "unknown")
    ensures HighlightsFor(comp, info, text, Identifier("x", comp.id, TopLevelKind))
         == [DocumentHighlight(R(14, 15)), DocumentHighlight(R(17, 18))]
  {
    MapTextFacts(text);
    MapDeclarationScan(text);
    MapHighlights(comp, info, text);
  }

  lemma MapHighlights(comp: Expr, info: SourceInfo, text: string)
    requires WellFormed(info, text) && comp.Comprehension? && comp.iterVar == "x"
    requires IsAscii(text) && '\n' !in text && |text| == 23
    requires comp.iterRange.id in info.ranges && info.ranges[comp.iterRange.id] == OffsetRange(0, 9)
    requires FirstWordFrom(text, "x", 9) == Some(14)
    requires Occurrences(comp.iterRange, info, text, "x") == []
    requires Occurrences(comp.accuInit, info, text, "x") == []
    requires Occurrences(comp.loopCondition, info, text, "x") == []
    requires Occurrences(comp.loopStep, info, text, "x") == [R(17, 18)]
    requires Occurrences(comp.result, info, text, "x") == []
    ensures DetermineScope(comp.id, "x", comp) == LoopVar(comp.id, "unknown")
    ensures HighlightsFor(comp, info, text, Identifier("x", comp.id, TopLevelKind))
         == [DocumentHighlight(R(14, 15)), DocumentHighlight(R(17, 18))]
  {
    MapParts(comp, info, text);
    MapRanges(comp, info, text);
    ComprehensionScope(comp, "x");
    HighlightsFromScope(comp, info, text, Identifier("x", comp.id, TopLevelKind), LoopVar(comp.id, "unknown"), [R(14, 15), R(17, 18)]);
    HighlightsTwo(R(14, 15), R(17, 18));
  }

  /** The declaration and the occurrences of the map example, found separately. */
  lemma MapParts(comp: Expr, info: SourceInfo, text: string)
    requires WellFormed(info, text) && comp.Comprehension? && comp.iterVar == "x"
    requires IsAscii(text) && '\n' !in text && |text| == 23
    requires comp.iterRange.id in info.ranges && info.ranges[comp.iterRange.id] == OffsetRange(0, 9)
    requires FirstWordFrom(text, "x", 9) == Some(14)
    requires Occurrences(comp.iterRange, info, text, "x") == []
    requires Occurrences(comp.accuInit, info, text, "x") == []
    requires Occurrences(comp.loopCondition, info, text, "x") == []
    requires Occurrences(comp.loopStep, info, text, "x") == [R(17, 18)]
    requires Occurrences(comp.result, info, text, "x") == []
    ensures ExprFormDeclaration(comp, info, text, "x", Highlighting) == [R(14, 15)]
    ensures OccurrencesIn([comp.iterRange, comp.accuInit, comp.loopCondition, comp.loopStep, comp.result], info, text, "x")
         == [R(17, 18)]
  {
    MapDeclaration(comp, info, text);
    OnlyFourthOccurs(comp.iterRange, comp.accuInit, comp.loopCondition, comp.loopStep, comp.result, [R(17, 18)], info, text, "x");
  }

  /** The highlights of an identifier are those of the ranges of its scope. */
  lemma HighlightsFromScope(e: Expr, info: SourceInfo, text: string, ident: Identifier, scope: Scope, rs: seq<Range>)
    requires WellFormed(info, text) && DetermineScope(ident.exprId, ident.name, e) == scope
    requires ScopedRanges(e, info, text, scope, ident.name, Highlighting) == rs
    ensures HighlightsFor(e, info, text, ident) == Highlights(rs)
  {
  }

  lemma HighlightsTwo(r0: Range, r1: Range)
    ensures Highlights([r0, r1]) == [DocumentHighlight(r0), DocumentHighlight(r1)]
  {
    assert [r0, r1][..1] == [r0];
  }

  lemma HighlightsThree(r0: Range, r1: Range, r2: Range)
    ensures Highlights([r0, r1, r2]) == [DocumentHighlight(r0), DocumentHighlight(r1), DocumentHighlight(r2)]
  {
    assert [r0, r1, r2][..2] == [r0, r1];
    HighlightsTwo(r0, r1);
  }

  /** A comprehension is the scope of its own loop variable, found by the expanded-form search. */
  lemma ComprehensionScope(comp: Expr, name: string)
    requires comp.Comprehension? && comp.iterVar == name
    ensures DetermineScope(comp.id, name, comp) == LoopVar(comp.id, "unknown")
    ensures FindComprehensionCall(comp, comp.id) == None
    ensures FindComprehensionExpr(comp, comp.id) == Some(comp)
  {
    FirstMatchUnfold(comp, LoopVarOf(comp.id, name));
    FirstMatchUnfold(comp, ComprehensionWithId(comp.id));
  }

  /** The ranges of the map example: the declaration, then the one occurrence in the loop step. */
  lemma MapRanges(comp: Expr, info: SourceInfo, text: string)
    requires WellFormed(info, text) && comp.Comprehension? && comp.iterVar == "x"
    requires ExprFormDeclaration(comp, info, text, "x", Highlighting) == [R(14, 15)]
    requires OccurrencesIn([comp.iterRange, comp.accuInit, comp.loopCondition, comp.loopStep, comp.result], info, text, "x")
          == [R(17, 18)]
    ensures ScopedRanges(comp, info, text, LoopVar(comp.id, "unknown"), "x", Highlighting) == [R(14, 15), R(17, 18)]
  {
    ComprehensionScope(comp, "x");
  }
}
