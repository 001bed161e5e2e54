/**
 * The CEL syntax tree the language features walk, and the walks they share
 * (internal/lsp/ast_walk.go).
 *
 * The tree is the parser's output; every node carries the parser's id, and
 * the parser's side table maps ids to rune ranges of the source text. Every
 * walk visits a node's children in the order `Children` gives: call
 * arguments before the receiver, map keys before their values, and the five
 * parts of a comprehension as iteration range, accumulator init, loop
 * condition, loop step, result.
 */
module Syntax {
  import opened Text
  import opened Cel
  import opened Protocol

  datatype LiteralKind = NullValue | BoolValue | IntValue | UintValue | DoubleValue | StringValue | BytesValue

  datatype Expr =
    | Unspecified(id: int)
    | Literal(id: int, kind: LiteralKind)
    | Ident(id: int, name: string)
    | Select(id: int, operand: Option<Expr>, field: string)
    | Call(id: int, fn: string, target: Option<Expr>, args: seq<Expr>)
    | List(id: int, elems: seq<Expr>)
    | Map(id: int, entries: seq<Entry>)
    | Struct(id: int, typeName: string, fields: seq<Field>)
    | Comprehension(id: int, iterVar: string, accuVar: string, iterRange: Expr, accuInit: Expr,
                    loopCondition: Expr, loopStep: Expr, result: Expr)

  datatype Entry = Entry(key: Expr, value: Expr)

  datatype Field = Field(name: string, value: Expr)

  /** A node's source range, in runes (code points), end exclusive. */
  datatype OffsetRange = OffsetRange(start: int, stop: int)

  /**
   * A start location: a 1-based line (0 or less when unknown) and the rune
   * offset of that location in the whole text.
   */
  datatype StartLocation = StartLocation(line: int, runeOffset: int)

  /** The parser's side tables: ranges and start locations by node id, and the macro calls it expanded. */
  datatype SourceInfo = SourceInfo(ranges: map<int, OffsetRange>, starts: map<int, StartLocation>,
                                   macroCalls: seq<(int, Expr)>)

  /** `GetStartLocation`: an id without a recorded location has no line. */
  function StartOf(info: SourceInfo, id: int): (loc: StartLocation)
    ensures id !in info.starts ==> loc.line <= 0
  {
    if id in info.starts then info.starts[id] else StartLocation(-1, 0)
  }

  /** Every recorded range lies inside the text it was parsed from. */
  predicate WellFormed(info: SourceInfo, text: string)
  {
    forall id :: id in info.ranges ==> 0 <= info.ranges[id].start <= info.ranges[id].stop <= RuneCount(text)
  }

  /** The byte range of a recorded rune range lies inside the text. */
  lemma ByteRangeOfNode(info: SourceInfo, text: string, id: int)
    requires WellFormed(info, text) && id in info.ranges
    ensures var (b, e) := OffsetRangeToByteRange(text, info.ranges[id].start, info.ranges[id].stop);
            0 <= b <= e <= |text|
  {
    ByteRangeWithinText(text, info.ranges[id].start, info.ranges[id].stop);
  }

  /* ---------------- names found in the text ---------------- */

  /**
   * A member name found textually, as semantic tokens and hover do: the
   * first ".name" at or after the receiver's start, when the receiver's
   * start location is known.
   */
  function AfterDotSpan(info: SourceInfo, text: string, receiverId: int, name: string): (r: Option<(int, int)>)
    ensures r.Some? ==>
      && StartOf(info, receiverId).line > 0
      && RuneToByte(text, StartOf(info, receiverId).runeOffset) < r.value.0
      && r.value.0 + |name| == r.value.1 <= |text|
      && text[r.value.0 - 1] == '.' && text[r.value.0..r.value.1] == name
    ensures r.None? && StartOf(info, receiverId).line > 0 ==>
      forall j :: RuneToByte(text, StartOf(info, receiverId).runeOffset) <= j ==> !OccursAt(text, "." + name, j)
  {
    var loc := StartOf(info, receiverId);
    if loc.line > 0 then
      var (s, e) := FindMethodNameAfterDot(RuneToByte(text, loc.runeOffset), name, text);
      if s >= 0 then
        DotNameAt(text, name, s - 1);
        Some((s, e))
      else None
    else None
  }

  /**
   * A global call's name found textually: the bytes just before the
   * call's recorded start location, kept only when they spell the name.
   */
  function NameBeforeSpan(info: SourceInfo, text: string, id: int, name: string): (r: Option<(int, int)>)
    ensures r.Some? ==>
      && StartOf(info, id).line > 0
      && r.value.1 == RuneToByte(text, StartOf(info, id).runeOffset)
      && 0 <= r.value.0 == r.value.1 - |name|
      && text[r.value.0..r.value.1] == name
    ensures r.None? ==>
      StartOf(info, id).line <= 0 || !OccursAt(text, name, RuneToByte(text, StartOf(info, id).runeOffset) - |name|)
  {
    var loc := StartOf(info, id);
    if loc.line > 0 then
      var off := RuneToByte(text, loc.runeOffset);
      var fs := off - |name|;
      var fe := fs + |name|;
      if fs >= 0 && fe <= |text| && text[fs..fe] == name then Some((fs, fe)) else None
    else None
  }

  /* ---------------- children and preorder ---------------- */

  function EntryChildren(entries: seq<Entry>): (cs: seq<Expr>)
    ensures |cs| == 2 * |entries|
    ensures forall k :: 0 <= k < |cs| ==> cs[k] == (if k % 2 == 0 then entries[k / 2].key else entries[k / 2].value)
  {
    if |entries| == 0 then []
    else [entries[0].key, entries[0].value] + EntryChildren(entries[1..])
  }

  function FieldValues(fields: seq<Field>): (cs: seq<Expr>)
    ensures |cs| == |fields|
    ensures forall k :: 0 <= k < |cs| ==> cs[k] == fields[k].value
  {
    if |fields| == 0 then [] else [fields[0].value] + FieldValues(fields[1..])
  }

  /** The sub-expressions every walk recurses into, in walk order. */
  function Children(e: Expr): (cs: seq<Expr>)
    ensures forall k :: 0 <= k < |cs| ==> cs[k] < e
  {
    match e
    case Call(_, _, target, args) => args + (if target.Some? then [target.value] else [])
    case List(_, elems) => elems
    case Map(_, entries) =>
      var cs := EntryChildren(entries);
      assert forall k :: 0 <= k < |cs| ==> cs[k] < entries[k / 2];
      cs
    case Struct(_, _, fields) =>
      var cs := FieldValues(fields);
      assert forall k :: 0 <= k < |cs| ==> cs[k] < fields[k];
      cs
    case Select(_, operand, _) => if operand.Some? then [operand.value] else []
    case Comprehension(_, _, _, r, init, cond, step, res) => [r, init, cond, step, res]
    case _ => []
  }

  /** The nodes of `e` in the order every walk meets them. */
  function Preorder(e: Expr): (ns: seq<Expr>)
    decreases e, 1
    ensures |ns| > 0 && ns[0] == e
  {
    [e] + PreorderAll(e, Children(e))
  }

  function PreorderAll(parent: Expr, cs: seq<Expr>): seq<Expr>
    requires forall k :: 0 <= k < |cs| ==> cs[k] < parent
    decreases parent, 0, |cs|
  {
    if |cs| == 0 then [] else Preorder(cs[0]) + PreorderAll(parent, cs[1..])
  }

  lemma {:induction false} PreorderAllSnoc(parent: Expr, cs: seq<Expr>, i: nat)
    requires i < |cs| && forall k :: 0 <= k < |cs| ==> cs[k] < parent
    ensures PreorderAll(parent, cs[..i + 1]) == PreorderAll(parent, cs[..i]) + Preorder(cs[i])
  {
    if i == 0 {
      assert cs[..1][1..] == [];
    } else {
      var tail := cs[1..];
      PreorderAllSnoc(parent, tail, i - 1);
      assert cs[..i + 1][1..] == tail[..i];
      assert cs[..i][1..] == tail[..i - 1];
    }
  }

  lemma PreorderAllFull(parent: Expr, cs: seq<Expr>)
    requires forall k :: 0 <= k < |cs| ==> cs[k] < parent
    ensures PreorderAll(parent, cs[..|cs|]) == PreorderAll(parent, cs)
  {
    assert cs[..|cs|] == cs;
  }

  /* ---------------- identifier occurrences ---------------- */

  /** A node the occurrence collectors report: an identifier with that name and a recorded range. */
  predicate IsOccurrence(n: Expr, info: SourceInfo, name: string)
  {
    n.Ident? && n.name == name && n.id in info.ranges
  }

  /** The nodes of `nodes` that are occurrences of `name`, in order. */
  function MatchingIdents(nodes: seq<Expr>, info: SourceInfo, name: string): (ms: seq<Expr>)
    ensures |ms| <= |nodes|
    ensures forall m :: m in ms <==> m in nodes && IsOccurrence(m, info, name)
  {
    if |nodes| == 0 then []
    else
      var last := nodes[|nodes| - 1];
      assert nodes == nodes[..|nodes| - 1] + [last];
      MatchingIdents(nodes[..|nodes| - 1], info, name) + (if IsOccurrence(last, info, name) then [last] else [])
  }

  lemma {:induction false} MatchingIdentsAppend(a: seq<Expr>, b: seq<Expr>, info: SourceInfo, name: string)
    ensures MatchingIdents(a + b, info, name) == MatchingIdents(a, info, name) + MatchingIdents(b, info, name)
  {
    if |b| > 0 {
      var b' := b[..|b| - 1];
      assert (a + b)[..|a + b| - 1] == a + b';
      MatchingIdentsAppend(a, b', info, name);
    } else {
      assert a + b == a;
    }
  }

  /** The protocol range of the bytes `b` to `e`. */
  function SpanRange(text: string, b: int, e: int): Range
  {
    var (sl, sc) := LineCol(text, b);
    var (el, ec) := LineCol(text, e);
    Range(Position(sl, sc), Position(el, ec))
  }

  /** The protocol range of a node's recorded rune range. */
  function RangeOf(text: string, r: OffsetRange): Range
  {
    var (b, e) := OffsetRangeToByteRange(text, r.start, r.stop);
    SpanRange(text, b, e)
  }

  function RangesOf(idents: seq<Expr>, info: SourceInfo, text: string): (rs: seq<Range>)
    requires forall m :: m in idents ==> m.id in info.ranges
    ensures |rs| == |idents|
    ensures forall k :: 0 <= k < |rs| ==> rs[k] == RangeOf(text, info.ranges[idents[k].id])
  {
    if |idents| == 0 then []
    else RangesOf(idents[..|idents| - 1], info, text) + [RangeOf(text, info.ranges[idents[|idents| - 1].id])]
  }

  lemma RangesOfAppend(a: seq<Expr>, b: seq<Expr>, info: SourceInfo, text: string)
    requires forall m :: m in a + b ==> m.id in info.ranges
    ensures RangesOf(a + b, info, text) == RangesOf(a, info, text) + RangesOf(b, info, text)
  {
  }

  /**
   * The ranges the occurrence collectors report for `name` in `e`: one per
   * identifier node with that name and a recorded range, in walk order.
   */
  function Occurrences(e: Expr, info: SourceInfo, text: string, name: string): seq<Range>
  {
    RangesOf(MatchingIdents(Preorder(e), info, name), info, text)
  }

  /** The occurrences under a node's children, child by child. */
  function OccurrencesAll(parent: Expr, cs: seq<Expr>, info: SourceInfo, text: string, name: string): seq<Range>
    requires forall k :: 0 <= k < |cs| ==> cs[k] < parent
  {
    RangesOf(MatchingIdents(PreorderAll(parent, cs), info, name), info, text)
  }

  lemma OccurrencesSplit(a: seq<Expr>, b: seq<Expr>, info: SourceInfo, text: string, name: string)
    ensures RangesOf(MatchingIdents(a + b, info, name), info, text)
         == RangesOf(MatchingIdents(a, info, name), info, text) + RangesOf(MatchingIdents(b, info, name), info, text)
  {
    MatchingIdentsAppend(a, b, info, name);
    RangesOfAppend(MatchingIdents(a, info, name), MatchingIdents(b, info, name), info, text);
  }

  /** A node's occurrences: its own, then those under each child in turn. */
  lemma OccurrencesUnfold(e: Expr, info: SourceInfo, text: string, name: string)
    ensures Occurrences(e, info, text, name)
         == OwnOccurrence(e, info, text, name) + OccurrencesAll(e, Children(e), info, text, name)
  {
    OwnOccurrenceOf(e, info, text, name);
    OccurrencesSplit([e], PreorderAll(e, Children(e)), info, text, name);
  }

  lemma OwnOccurrenceOf(e: Expr, info: SourceInfo, text: string, name: string)
    ensures RangesOf(MatchingIdents([e], info, name), info, text) == OwnOccurrence(e, info, text, name)
  {
    assert MatchingIdents([e], info, name) == (if IsOccurrence(e, info, name) then [e] else []) by {
      assert [e][..0] == [];
    }
  }

  lemma OccurrencesAllStep(parent: Expr, cs: seq<Expr>, i: nat, info: SourceInfo, text: string, name: string)
    requires i < |cs| && forall k :: 0 <= k < |cs| ==> cs[k] < parent
    ensures OccurrencesAll(parent, cs[..i + 1], info, text, name)
         == OccurrencesAll(parent, cs[..i], info, text, name) + Occurrences(cs[i], info, text, name)
  {
    PreorderAllSnoc(parent, cs, i);
    OccurrencesSplit(PreorderAll(parent, cs[..i]), Preorder(cs[i]), info, text, name);
  }

  lemma AppendAssoc(a: seq<Range>, b: seq<Range>, c: seq<Range>)
    ensures (a + b) + c == a + (b + c)
  {
  }

  /** The range a node contributes on its own: one when it is an occurrence, none otherwise. */
  function OwnOccurrence(e: Expr, info: SourceInfo, text: string, name: string): seq<Range>
  {
    if IsOccurrence(e, info, name) then [RangeOf(text, info.ranges[e.id])] else []
  }

  /** The head of `collectOccurrencesInExpr`: the node's own range, when it is an occurrence. */
  method AppendOwnOccurrence(e: Expr, info: SourceInfo, text: string, name: string, acc: seq<Range>)
    returns (out: seq<Range>)
    ensures out == acc + OwnOccurrence(e, info, text, name)
  {
    out := acc;
    if e.Ident? && e.name == name && e.id in info.ranges {
      var r := info.ranges[e.id];
      var (b, en) := OffsetRangeToByteRange(text, r.start, r.stop);
      var sl, sc := ByteOffsetToLineCol(text, b);
      var el, ec := ByteOffsetToLineCol(text, en);
      out := out + [Range(Position(sl, sc), Position(el, ec))];
    }
  }

  /**
   * `collectOccurrencesInExpr`: appends to `acc` the ranges of the
   * occurrences of `name` in `e`, the node itself first, then its children.
   */
  method CollectOccurrences(e: Expr, info: SourceInfo, text: string, name: string, acc: seq<Range>)
    returns (out: seq<Range>)
    ensures out == acc + Occurrences(e, info, text, name)
    decreases e, 1
  {
    out := AppendOwnOccurrence(e, info, text, name, acc);
    out := CollectInChildren(e, Children(e), info, text, name, out);
    OccurrencesUnfold(e, info, text, name);
  }

  /** `recurseAllExpr`: the children's occurrences, child by child. */
  method CollectInChildren(parent: Expr, cs: seq<Expr>, info: SourceInfo, text: string, name: string, acc: seq<Range>)
    returns (out: seq<Range>)
    requires forall k :: 0 <= k < |cs| ==> cs[k] < parent
    ensures out == acc + OccurrencesAll(parent, cs, info, text, name)
    decreases parent, 0
  {
    out := acc;
    var i := 0;
    while i < |cs|
      invariant 0 <= i <= |cs|
      invariant out == acc + OccurrencesAll(parent, cs[..i], info, text, name)
    {
      ghost var done := OccurrencesAll(parent, cs[..i], info, text, name);
      ghost var more := Occurrences(cs[i], info, text, name);
      out := CollectOccurrences(cs[i], info, text, name, out);
      assert out == (acc + done) + more;
      OccurrencesAllStep(parent, cs, i, info, text, name);
      AppendAssoc(acc, done, more);
      i := i + 1;
    }
    assert cs[..|cs|] == cs;
  }

  /** `CollectIdentifierOccurrences`: the rename edits, every one carrying the new name. */
  function Edits(ranges: seq<Range>, newName: string): (es: seq<TextEdit>)
    ensures |es| == |ranges|
    ensures forall k :: 0 <= k < |es| ==> es[k].range == ranges[k] && es[k].newText == newName
  {
    if |ranges| == 0 then [] else Edits(ranges[..|ranges| - 1], newName) + [TextEdit(ranges[|ranges| - 1], newName)]
  }

  /** `CollectIdentifierHighlights`: one highlight per range. */
  function Highlights(ranges: seq<Range>): (hs: seq<DocumentHighlight>)
    ensures |hs| == |ranges|
    ensures forall k :: 0 <= k < |hs| ==> hs[k].range == ranges[k]
  {
    if |ranges| == 0 then [] else Highlights(ranges[..|ranges| - 1]) + [DocumentHighlight(ranges[|ranges| - 1])]
  }

  /** `CollectIdentifierReferences`: one location per range, every one in the requested document. */
  function Locations(uri: string, ranges: seq<Range>): (ls: seq<Location>)
    ensures |ls| == |ranges|
    ensures forall k :: 0 <= k < |ls| ==> ls[k].range == ranges[k] && ls[k].uri == uri
  {
    if |ranges| == 0 then [] else Locations(uri, ranges[..|ranges| - 1]) + [Location(uri, ranges[|ranges| - 1])]
  }

  /** Occurrences are only ever identifier nodes: function names and loop-variable names are not reported. */
  lemma OccurrencesAreIdents(e: Expr, info: SourceInfo, text: string, name: string, k: nat)
    requires k < |Occurrences(e, info, text, name)|
    ensures var ms := MatchingIdents(Preorder(e), info, name);
            && ms[k] in Preorder(e) && ms[k].Ident? && ms[k].name == name && ms[k].id in info.ranges
            && Occurrences(e, info, text, name)[k] == RangeOf(text, info.ranges[ms[k].id])
  {
    var ms := MatchingIdents(Preorder(e), info, name);
    assert ms[k] in ms;
  }

  /** Every identifier node with that name and a recorded range is reported. */
  lemma EveryIdentReported(e: Expr, info: SourceInfo, text: string, n: Expr)
    requires n in Preorder(e) && n.Ident? && n.id in info.ranges
    ensures RangeOf(text, info.ranges[n.id]) in Occurrences(e, info, text, n.name)
  {
    var ms := MatchingIdents(Preorder(e), info, n.name);
    assert n in ms;
    var k :| 0 <= k < |ms| && ms[k] == n;
    assert Occurrences(e, info, text, n.name)[k] == RangeOf(text, info.ranges[n.id]);
  }

  /* ---------------- identifier visitor ---------------- */

  /** The visitor calls a node asks for: an identifier with its name, a comprehension with its loop variable. */
  function VisitOf(n: Expr): seq<(Expr, string)>
  {
    if n.Ident? then [(n, n.name)] else if n.Comprehension? then [(n, n.iterVar)] else []
  }

  function VisitsOf(nodes: seq<Expr>): seq<(Expr, string)>
  {
    if |nodes| == 0 then [] else VisitOf(nodes[0]) + VisitsOf(nodes[1..])
  }

  lemma {:induction false} VisitsOfAppend(a: seq<Expr>, b: seq<Expr>)
    ensures VisitsOf(a + b) == VisitsOf(a) + VisitsOf(b)
  {
    if |a| > 0 {
      assert (a + b)[1..] == a[1..] + b;
      VisitsOfAppend(a[1..], b);
    } else {
      assert a + b == b;
    }
  }

  /** Every visitor call of a full walk over `e`, in order. */
  function Visits(e: Expr): seq<(Expr, string)>
  {
    VisitsOf(Preorder(e))
  }

  /** The index of the first call the visitor refuses, or the number of calls when it refuses none. */
  function FirstRefusal(vs: seq<(Expr, string)>, visitor: (Expr, string) -> bool): (k: nat)
    ensures k <= |vs|
    ensures forall j :: 0 <= j < k ==> visitor(vs[j].0, vs[j].1)
    ensures k < |vs| ==> !visitor(vs[k].0, vs[k].1)
  {
    if |vs| == 0 then 0
    else if !visitor(vs[0].0, vs[0].1) then 0
    else 1 + FirstRefusal(vs[1..], visitor)
  }

  lemma {:induction false} FirstRefusalAppend(a: seq<(Expr, string)>, b: seq<(Expr, string)>, visitor: (Expr, string) -> bool)
    ensures FirstRefusal(a + b, visitor)
         == if FirstRefusal(a, visitor) < |a| then FirstRefusal(a, visitor) else |a| + FirstRefusal(b, visitor)
  {
    if |a| > 0 {
      assert (a + b)[1..] == a[1..] + b;
      FirstRefusalAppend(a[1..], b, visitor);
    } else {
      assert a + b == b;
    }
  }

  /** The result of a walk that visits `vs` in order and stops at the first refusal: (completed, calls made). */
  function Outcome(vs: seq<(Expr, string)>, visitor: (Expr, string) -> bool): (bool, nat)
  {
    var k := FirstRefusal(vs, visitor);
    if k == |vs| then (true, |vs|) else (false, k + 1)
  }

  lemma OutcomeAppend(a: seq<(Expr, string)>, b: seq<(Expr, string)>, visitor: (Expr, string) -> bool)
    ensures Outcome(a + b, visitor)
         == if !Outcome(a, visitor).0 then Outcome(a, visitor)
            else (Outcome(b, visitor).0, |a| + Outcome(b, visitor).1)
  {
    FirstRefusalAppend(a, b, visitor);
  }

  lemma VisitsUnfold(e: Expr)
    ensures Visits(e) == VisitOf(e) + VisitsOf(PreorderAll(e, Children(e)))
  {
    VisitsOfAppend([e], PreorderAll(e, Children(e)));
    assert VisitsOf([e]) == VisitOf(e) by { assert [e][1..] == []; }
  }

  lemma VisitsAllUnfold(parent: Expr, cs: seq<Expr>)
    requires |cs| > 0 && forall k :: 0 <= k < |cs| ==> cs[k] < parent
    ensures VisitsOf(PreorderAll(parent, cs)) == Visits(cs[0]) + VisitsOf(PreorderAll(parent, cs[1..]))
  {
    VisitsOfAppend(Preorder(cs[0]), PreorderAll(parent, cs[1..]));
  }

  /**
   * `walkIdentifiersImpl`: whether the walk completed, and how many visitor
   * calls it made. The walk stops at the first call the visitor refuses.
   */
  function WalkIdentifiers(e: Expr, visitor: (Expr, string) -> bool): (r: (bool, nat))
    decreases e, 1
    ensures r == Outcome(Visits(e), visitor)
  {
    var here := VisitOf(e);
    VisitsUnfold(e);
    OutcomeAppend(here, VisitsOf(PreorderAll(e, Children(e))), visitor);
    if |here| == 1 && !visitor(here[0].0, here[0].1) then (false, 1)
    else
      var (ok, n) := WalkChildren(e, Children(e), visitor);
      (ok, |here| + n)
  }

  function WalkChildren(parent: Expr, cs: seq<Expr>, visitor: (Expr, string) -> bool): (r: (bool, nat))
    requires forall k :: 0 <= k < |cs| ==> cs[k] < parent
    decreases parent, 0, |cs|
    ensures r == Outcome(VisitsOf(PreorderAll(parent, cs)), visitor)
  {
    if |cs| == 0 then (true, 0)
    else
      var (ok, n) := WalkIdentifiers(cs[0], visitor);
      if !ok then
        WalkChildrenStep(parent, cs, visitor, (ok, n), (true, 0));
        (false, n)
      else
        var (ok2, m) := WalkChildren(parent, cs[1..], visitor);
        WalkChildrenStep(parent, cs, visitor, (ok, n), (ok2, m));
        (ok2, n + m)
  }

  /** The walk over children: a refusal in the first child ends it, else the rest are walked. */
  lemma WalkChildrenStep(parent: Expr, cs: seq<Expr>, visitor: (Expr, string) -> bool,
                         first: (bool, nat), rest: (bool, nat))
    requires |cs| > 0 && forall k :: 0 <= k < |cs| ==> cs[k] < parent
    requires first == Outcome(Visits(cs[0]), visitor)
    requires first.0 ==> rest == Outcome(VisitsOf(PreorderAll(parent, cs[1..])), visitor)
    ensures Outcome(VisitsOf(PreorderAll(parent, cs)), visitor)
         == if !first.0 then first else (rest.0, first.1 + rest.1)
  {
    VisitsAllUnfold(parent, cs);
    OutcomeAppend(Visits(cs[0]), VisitsOf(PreorderAll(parent, cs[1..])), visitor);
  }

  /** A walk that completes has shown every identifier and every loop variable to the visitor, and all were accepted. */
  lemma WalkCompletes(e: Expr, visitor: (Expr, string) -> bool)
    ensures WalkIdentifiers(e, visitor).0 <==> forall v :: v in Visits(e) ==> visitor(v.0, v.1)
    ensures WalkIdentifiers(e, visitor).0 ==> WalkIdentifiers(e, visitor).1 == |Visits(e)|
  {
    var vs := Visits(e);
    var k := FirstRefusal(vs, visitor);
    if k < |vs| {
      assert vs[k] in vs;
    } else {
      forall v | v in vs ensures visitor(v.0, v.1) {
        var j :| 0 <= j < |vs| && vs[j] == v;
      }
    }
  }

  /** After the first refusal nothing more is visited: the last call made is the refused one. */
  lemma WalkStopsAtRefusal(e: Expr, visitor: (Expr, string) -> bool)
    requires !WalkIdentifiers(e, visitor).0
    ensures var n := WalkIdentifiers(e, visitor).1;
            && 0 < n <= |Visits(e)|
            && !visitor(Visits(e)[n - 1].0, Visits(e)[n - 1].1)
            && forall j :: 0 <= j < n - 1 ==> visitor(Visits(e)[j].0, Visits(e)[j].1)
  {
    var vs := Visits(e);
    var k := FirstRefusal(vs, visitor);
    assert k < |vs| && WalkIdentifiers(e, visitor) == (false, k + 1);
  }
}
