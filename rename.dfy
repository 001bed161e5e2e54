/**
 * Identifier resolution, scope resolution and rename (internal/lsp/rename.go).
 *
 * A request names a byte offset. The identifier under it is found by a walk
 * that collects candidates and keeps the last one; its scope is either the
 * whole expression or one comprehension, found by id. The occurrences in
 * that scope become the rename edits, highlights or reference locations;
 * the three requests differ only in how they find a loop variable's
 * declaration when the parser recorded no range for it (`Feature`).
 */
module Rename {
  import opened Text
  import opened Cel
  import opened Protocol
  import opened Syntax

  /* ---------------- identifier characters and names ---------------- */

  /** `isIdentifierChar` on a code point: a letter, a decimal digit or `_`. */
  predicate IsIdentifierRune(r: int)
  {
    IsLetter(r) || ('0' as int <= r <= '9' as int) || r == '_' as int
  }

  /** `isIdentifierChar(rune(b))` on a single byte. */
  predicate IsIdentifierChar(c: char)
  {
    IsIdentifierRune(c as int)
  }

  /** Every code point decoded from byte `i` on is an identifier code point. */
  predicate RestIsIdentifier(s: string, i: nat)
    requires i <= |s|
    decreases |s| - i
  {
    i == |s| || (var (r, size) := DecodeRune(s, i); IsIdentifierRune(r) && RestIsIdentifier(s, i + size))
  }

  /**
   * `isValidIdentifier`: the first byte, read as a code point, is a letter
   * or `_`; every code point decoded from the rest is a letter, digit or `_`.
   */
  predicate IsValidIdentifier(s: string)
  {
    |s| > 0 && (IsLetter(s[0] as int) || s[0] == '_') && RestIsIdentifier(s, 1)
  }

  /** On ASCII text the decoding is byte by byte. */
  lemma {:induction false} RestIsIdentifierAscii(s: string, i: nat)
    requires i <= |s| && IsAscii(s)
    ensures RestIsIdentifier(s, i) <==> forall k :: i <= k < |s| ==> IsIdentifierChar(s[k])
    decreases |s| - i
  {
    if i < |s| {
      assert DecodeRune(s, i) == (s[i] as int, 1);
      RestIsIdentifierAscii(s, i + 1);
    }
  }

  /** An ASCII name is valid exactly when it is `[A-Za-z_][A-Za-z0-9_]*`. */
  lemma ValidAsciiIdentifier(s: string)
    requires IsAscii(s)
    ensures IsValidIdentifier(s) <==>
      && |s| > 0
      && (IsLetter(s[0] as int) || s[0] == '_')
      && forall k :: 1 <= k < |s| ==> IsIdentifierChar(s[k])
  {
    if |s| > 0 {
      RestIsIdentifierAscii(s, 1);
    }
  }

  datatype NameError = EmptyName | InvalidIdentifier(name: string) | KeywordName(name: string)

  /** `validateNewName`: empty, not an identifier, or a CEL keyword is refused, in that order. */
  function ValidateNewName(newName: string): (r: Option<NameError>)
    ensures r.None? <==> IsValidIdentifier(newName) && !IsCelKeyword(newName)
    ensures newName == [] ==> r == Some(EmptyName)
    ensures r == Some(KeywordName(newName)) ==> IsCelKeyword(newName)
    ensures IsCelKeyword(newName) ==> r.Some?
  {
    if newName == [] then Some(EmptyName)
    else if !IsValidIdentifier(newName) then Some(InvalidIdentifier(newName))
    else if IsCelKeyword(newName) then Some(KeywordName(newName))
    else None
  }

  /* ---------------- first match in walk order ---------------- */

  /** The searches the walks of this file make. */
  datatype Query =
    | LoopVarOf(exprId: int, name: string)
    | IdentWithId(name: string, id: int)
    | CallWithId(id: int)
    | ComprehensionWithId(id: int)
    | IdentAround(name: string, info: SourceInfo, text: string, target: int)

  /** The comprehension macros that bind a loop variable. */
  const LoopMacros: set<string> := {"map", "filter", "all", "exists", "exists_one"}

  /** `containsIdentifier`: the subtree holds the identifier node `name` with id `id`. */
  function ContainsIdentifier(e: Expr, name: string, id: int): (r: bool)
    decreases e, 1
    ensures r <==> Ident(id, name) in Preorder(e)
  {
    if e.Ident? && e.name == name then e.id == id
    else ContainsInChildren(e, Children(e), name, id)
  }

  function ContainsInChildren(parent: Expr, cs: seq<Expr>, name: string, id: int): (r: bool)
    requires forall k :: 0 <= k < |cs| ==> cs[k] < parent
    decreases parent, 0, |cs|
    ensures r <==> Ident(id, name) in PreorderAll(parent, cs)
  {
    if |cs| == 0 then false
    else ContainsIdentifier(cs[0], name, id) || ContainsInChildren(parent, cs[1..], name, id)
  }

  /** `isUsedInComprehension`: an argument after the first holds the loop-variable node itself (same id). */
  predicate IsUsedInComprehension(loopVar: Expr, call: Expr)
    requires loopVar.Ident? && call.Call?
  {
    exists k :: 1 <= k < |call.args| && ContainsIdentifier(call.args[k], loopVar.name, loopVar.id)
  }

  predicate Matches(q: Query, n: Expr)
  {
    match q
    case LoopVarOf(exprId, name) =>
      || (n.Comprehension? && n.iterVar == name && n.id == exprId)
      || (&& n.Call? && n.fn in LoopMacros && |n.args| >= 2
          && n.args[0].Ident? && n.args[0].name == name
          && (n.args[0].id == exprId || IsUsedInComprehension(n.args[0], n)))
    case IdentWithId(name, id) => n == Ident(id, name)
    case CallWithId(id) => n.Call? && n.id == id
    case ComprehensionWithId(id) => n.Comprehension? && n.id == id
    case IdentAround(name, info, text, target) =>
      && IsOccurrence(n, info, name)
      && var (b, e) := OffsetRangeToByteRange(text, info.ranges[n.id].start, info.ranges[n.id].stop);
         b <= target < e
  }

  function FirstMatchIndex(nodes: seq<Expr>, q: Query): (k: nat)
    ensures k <= |nodes|
    ensures forall j :: 0 <= j < k ==> !Matches(q, nodes[j])
    ensures k < |nodes| ==> Matches(q, nodes[k])
  {
    if |nodes| == 0 then 0
    else if Matches(q, nodes[0]) then 0
    else 1 + FirstMatchIndex(nodes[1..], q)
  }

  /** The first node of `nodes` that answers `q`. */
  function FirstMatch(nodes: seq<Expr>, q: Query): (r: Option<Expr>)
    ensures r.None? <==> forall j :: 0 <= j < |nodes| ==> !Matches(q, nodes[j])
    ensures r.Some? ==> r.value in nodes && Matches(q, r.value)
    ensures r.Some? ==> FirstMatchIndex(nodes, q) < |nodes| && r.value == nodes[FirstMatchIndex(nodes, q)]
  {
    var k := FirstMatchIndex(nodes, q);
    if k < |nodes| then Some(nodes[k]) else None
  }

  lemma FirstMatchAppend(a: seq<Expr>, b: seq<Expr>, q: Query)
    ensures FirstMatch(a + b, q) == if FirstMatch(a, q).Some? then FirstMatch(a, q) else FirstMatch(b, q)
  {
    FirstMatchIndexAppend(a, b, q);
    var k := FirstMatchIndex(a, q);
    if k < |a| {
      assert (a + b)[k] == a[k];
    } else if FirstMatchIndex(b, q) < |b| {
      assert (a + b)[|a| + FirstMatchIndex(b, q)] == b[FirstMatchIndex(b, q)];
    }
  }

  lemma {:induction false} FirstMatchIndexAppend(a: seq<Expr>, b: seq<Expr>, q: Query)
    ensures FirstMatchIndex(a + b, q)
         == if FirstMatchIndex(a, q) < |a| then FirstMatchIndex(a, q) else |a| + FirstMatchIndex(b, q)
  {
    if |a| > 0 {
      assert (a + b)[0] == a[0];
      assert (a + b)[1..] == a[1..] + b;
      FirstMatchIndexAppend(a[1..], b, q);
    } else {
      assert a + b == b;
    }
  }

  lemma FirstMatchUnfold(e: Expr, q: Query)
    ensures FirstMatch(Preorder(e), q)
         == if Matches(q, e) then Some(e) else FirstMatch(PreorderAll(e, Children(e)), q)
  {
    FirstMatchAppend([e], PreorderAll(e, Children(e)), q);
    assert [e][1..] == [];
  }

  lemma FirstMatchAllUnfold(parent: Expr, cs: seq<Expr>, q: Query)
    requires |cs| > 0 && forall k :: 0 <= k < |cs| ==> cs[k] < parent
    ensures FirstMatch(PreorderAll(parent, cs), q)
         == if FirstMatch(Preorder(cs[0]), q).Some? then FirstMatch(Preorder(cs[0]), q)
            else FirstMatch(PreorderAll(parent, cs[1..]), q)
  {
    FirstMatchAppend(Preorder(cs[0]), PreorderAll(parent, cs[1..]), q);
  }

  /**
   * The walk with early exit shared by `findLoopVarScope`,
   * `findComprehensionExprByID` and `findIdentifierByName`: the first node
   * in walk order that answers `q`.
   */
  function FindFirst(e: Expr, q: Query): (r: Option<Expr>)
    decreases e, 1
    ensures r == FirstMatch(Preorder(e), q)
  {
    FirstMatchUnfold(e, q);
    if Matches(q, e) then Some(e) else FindFirstIn(e, Children(e), q)
  }

  function FindFirstIn(parent: Expr, cs: seq<Expr>, q: Query): (r: Option<Expr>)
    requires forall k :: 0 <= k < |cs| ==> cs[k] < parent
    decreases parent, 0, |cs|
    ensures r == FirstMatch(PreorderAll(parent, cs), q)
  {
    if |cs| == 0 then None
    else
      FirstMatchAllUnfold(parent, cs, q);
      var here := FindFirst(cs[0], q);
      if here.Some? then here else FindFirstIn(parent, cs[1..], q)
  }

  /* ---------------- scopes ---------------- */

  datatype Scope = TopLevel | LoopVar(comprehensionId: int, macroName: string)

  /** The scope a loop-variable match stands for; an expanded comprehension does not know its macro. */
  function ScopeOf(n: Expr): Scope
  {
    if n.Call? then LoopVar(n.id, n.fn) else LoopVar(n.id, "unknown")
  }

  /**
   * `findLoopVarScope`: the first node in walk order that binds `name` as
   * a loop variable of the identifier `exprId`: an expanded comprehension
   * with that id, or a loop macro call whose first argument is that
   * variable.
   */
  function FindLoopVarScope(e: Expr, exprId: int, name: string): (r: Option<Scope>)
    ensures r.None? <==> FirstMatch(Preorder(e), LoopVarOf(exprId, name)).None?
    ensures r.Some? ==> r.value == ScopeOf(FirstMatch(Preorder(e), LoopVarOf(exprId, name)).value)
  {
    match FindFirst(e, LoopVarOf(exprId, name))
    case Some(n) => Some(ScopeOf(n))
    case None => None
  }

  /** `determineIdentifierScope`: a loop-variable scope when one is found, otherwise the whole expression. */
  function DetermineScope(exprId: int, name: string, e: Expr): (s: Scope)
    ensures s.TopLevel? <==> FirstMatch(Preorder(e), LoopVarOf(exprId, name)).None?
    ensures s.LoopVar? ==> s == ScopeOf(FirstMatch(Preorder(e), LoopVarOf(exprId, name)).value)
  {
    match FindLoopVarScope(e, exprId, name)
    case Some(found) => found
    case None => TopLevel
  }

  /**
   * `findComprehensionByID`: the first call with that id in walk order; the
   * subtree of a comprehension that has the id itself is not searched.
   */
  function FindComprehensionCall(e: Expr, id: int): (r: Option<Expr>)
    decreases e, 1
    ensures r.Some? ==> r.value.Call? && r.value.id == id && r.value in Preorder(e)
    ensures FirstMatch(Preorder(e), ComprehensionWithId(id)).None? ==> r == FirstMatch(Preorder(e), CallWithId(id))
  {
    FirstMatchUnfold(e, ComprehensionWithId(id));
    FirstMatchUnfold(e, CallWithId(id));
    if e.Call? && e.id == id then Some(e)
    else if e.Comprehension? && e.id == id then None
    else FindComprehensionCallIn(e, Children(e), id)
  }

  function FindComprehensionCallIn(parent: Expr, cs: seq<Expr>, id: int): (r: Option<Expr>)
    requires forall k :: 0 <= k < |cs| ==> cs[k] < parent
    decreases parent, 0, |cs|
    ensures r.Some? ==> r.value.Call? && r.value.id == id && r.value in PreorderAll(parent, cs)
    ensures FirstMatch(PreorderAll(parent, cs), ComprehensionWithId(id)).None? ==>
              r == FirstMatch(PreorderAll(parent, cs), CallWithId(id))
  {
    if |cs| == 0 then None
    else
      FirstMatchAllUnfold(parent, cs, ComprehensionWithId(id));
      FirstMatchAllUnfold(parent, cs, CallWithId(id));
      var here := FindComprehensionCall(cs[0], id);
      if here.Some? then here else FindComprehensionCallIn(parent, cs[1..], id)
  }

  /** `findComprehensionExprByID`: the first comprehension with that id in walk order. */
  function FindComprehensionExpr(e: Expr, id: int): (r: Option<Expr>)
    ensures r == FirstMatch(Preorder(e), ComprehensionWithId(id))
    ensures r.Some? ==> r.value.Comprehension? && r.value.id == id
  {
    FindFirst(e, ComprehensionWithId(id))
  }

  /* ---------------- identifier at a position ---------------- */

  datatype IdentKind = TopLevelKind | FunctionKind

  /** `identifierInfo`. */
  datatype Identifier = Identifier(name: string, exprId: int, kind: IdentKind)

  /** Neither byte next to `[s, e)` continues an identifier. */
  predicate WordBounded(text: string, s: int, e: int)
    requires 0 <= s <= |text| && 0 <= e
  {
    (s == 0 || !IsIdentifierChar(text[s - 1])) && (e >= |text| || !IsIdentifierChar(text[e]))
  }

  /** `name` occurs as a whole word at byte `i`. */
  predicate WordAt(text: string, name: string, i: int)
  {
    OccursAt(text, name, i) && WordBounded(text, i, i + |name|)
  }

  /** The candidate for a call's function name: the name's first occurrence in the call's text covers the target. */
  function FunctionNameCandidate(n: Expr, text: string, bs: nat, be: nat, target: int): (r: seq<Identifier>)
    requires n.Call? && bs <= be <= |text|
    ensures r == [] || r == [Identifier(n.fn, n.id, FunctionKind)]
  {
    var k := Index(text[bs..be], n.fn);
    if k >= 0 && bs + k <= target < bs + k + |n.fn| then [Identifier(n.fn, n.id, FunctionKind)] else []
  }

  /**
   * The candidate for a macro's loop variable: the first occurrence of its
   * name in the call's text covers the target and is a whole word. It
   * carries the call's id.
   */
  function MacroVariableCandidate(n: Expr, text: string, bs: nat, be: nat, target: int): (r: seq<Identifier>)
    requires n.Call? && bs <= be <= |text|
    ensures r != [] ==> IsCelMacroFunction(n.fn) && |n.args| > 0 && n.args[0].Ident?
                        && r == [Identifier(n.args[0].name, n.id, TopLevelKind)]
  {
    if IsCelMacroFunction(n.fn) && |n.args| > 0 && n.args[0].Ident? then
      var v := n.args[0].name;
      var k := Index(text[bs..be], v);
      if k >= 0 && bs + k <= target < bs + k + |v| && WordBounded(text, bs + k, bs + k + |v|) then
        [Identifier(v, n.id, TopLevelKind)]
      else []
    else []
  }

  /** The candidate for a comprehension's loop variable: its first whole-word occurrence from the comprehension's start covers the target. */
  function IterVarCandidate(n: Expr, text: string, bs: nat, target: int): (r: seq<Identifier>)
    requires n.Comprehension? && bs <= |text|
    ensures r == [] || r == [Identifier(n.iterVar, n.id, TopLevelKind)]
  {
    var v := n.iterVar;
    var k := Index(text[bs..], v);
    if k >= 0 && WordBounded(text, bs + k, bs + k + |v|) && bs + k <= target < bs + k + |v| then
      [Identifier(v, n.id, TopLevelKind)]
    else []
  }

  /**
   * What a node with a recorded range adds to the candidates when the
   * target is inside it (an empty comprehension range counts as inside).
   */
  function NodeCandidates(n: Expr, info: SourceInfo, text: string, target: int): (r: seq<Identifier>)
    requires WellFormed(info, text) && n.id in info.ranges
    ensures forall c :: c in r ==> c.exprId == n.id
    ensures forall c :: c in r && c.kind == FunctionKind ==> n.Call? && c.name == n.fn
    ensures n.Ident? ==>
      var (b, e) := OffsetRangeToByteRange(text, info.ranges[n.id].start, info.ranges[n.id].stop);
      r == (if b <= target < e then [Identifier(n.name, n.id, TopLevelKind)] else [])
  {
    ByteRangeOfNode(info, text, n.id);
    var (bs, be) := OffsetRangeToByteRange(text, info.ranges[n.id].start, info.ranges[n.id].stop);
    var inRange := (bs <= target < be) || (n.Comprehension? && bs == be);
    if !inRange then []
    else if n.Ident? then [Identifier(n.name, n.id, TopLevelKind)]
    else if n.Call? then FunctionNameCandidate(n, text, bs, be, target) + MacroVariableCandidate(n, text, bs, be, target)
    else if n.Comprehension? then IterVarCandidate(n, text, bs, target)
    else []
  }

  /** A node's own candidates, none when it has no recorded range. */
  function NodeCandidatesOf(n: Expr, info: SourceInfo, text: string, target: int): seq<Identifier>
    requires WellFormed(info, text)
  {
    if n.id in info.ranges then NodeCandidates(n, info, text, target) else []
  }

  /**
   * The candidates of `findIdentifierAtPosition`'s walk, in the order it
   * collects them. A node without a recorded range is skipped with its
   * subtree, except a comprehension, whose children are still walked.
   */
  function Candidates(e: Expr, info: SourceInfo, text: string, target: int): (r: seq<Identifier>)
    requires WellFormed(info, text)
    decreases e, 1
    ensures forall c :: c in r ==> c in NodeCandidatesOf(e, info, text, target) || c in CandidatesIn(e, Children(e), info, text, target)
  {
    if e.id !in info.ranges then
      if e.Comprehension? then CandidatesIn(e, Children(e), info, text, target) else []
    else NodeCandidates(e, info, text, target) + CandidatesIn(e, Children(e), info, text, target)
  }

  function CandidatesIn(parent: Expr, cs: seq<Expr>, info: SourceInfo, text: string, target: int): (r: seq<Identifier>)
    requires WellFormed(info, text)
    requires forall k :: 0 <= k < |cs| ==> cs[k] < parent
    decreases parent, 0, |cs|
    ensures |cs| == 0 ==> r == []
    ensures |cs| > 0 ==> forall c :: c in r ==> c in Candidates(cs[0], info, text, target) || c in CandidatesIn(parent, cs[1..], info, text, target)
  {
    if |cs| == 0 then []
    else Candidates(cs[0], info, text, target) + CandidatesIn(parent, cs[1..], info, text, target)
  }

  /** Every candidate is the own candidate of a node of the tree. */
  lemma {:induction false} CandidatesFromTree(e: Expr, info: SourceInfo, text: string, target: int, c: Identifier)
    requires WellFormed(info, text) && c in Candidates(e, info, text, target)
    ensures exists n :: n in Preorder(e) && c in NodeCandidatesOf(n, info, text, target)
    decreases e, 1
  {
    if c in NodeCandidatesOf(e, info, text, target) {
      assert e in Preorder(e);
    } else {
      CandidatesInFromTree(e, Children(e), info, text, target, c);
    }
  }

  lemma {:induction false} CandidatesInFromTree(parent: Expr, cs: seq<Expr>, info: SourceInfo, text: string, target: int, c: Identifier)
    requires WellFormed(info, text)
    requires forall k :: 0 <= k < |cs| ==> cs[k] < parent
    requires c in CandidatesIn(parent, cs, info, text, target)
    ensures exists n :: n in PreorderAll(parent, cs) && c in NodeCandidatesOf(n, info, text, target)
    decreases parent, 0, |cs|
  {
    if c in Candidates(cs[0], info, text, target) {
      CandidatesFromTree(cs[0], info, text, target, c);
    } else {
      CandidatesInFromTree(parent, cs[1..], info, text, target, c);
    }
  }

  /**
   * A comprehension that binds `name` and covers the target. An empty range
   * covers the 999 bytes after its start.
   */
  predicate RefinesTo(n: Expr, name: string, info: SourceInfo, text: string, target: int)
  {
    && n.Comprehension? && n.iterVar == name && n.id in info.ranges
    && var (b, e) := OffsetRangeToByteRange(text, info.ranges[n.id].start, info.ranges[n.id].stop);
       if b == e then b < target < b + 1000 else b <= target < e
  }

  /**
   * The second walk of `findIdentifierAtPosition`: every comprehension
   * that `RefinesTo` the name overwrites the id, and its own subtree is not
   * searched further. The last one met wins.
   */
  function Refine(e: Expr, name: string, info: SourceInfo, text: string, target: int, current: int): (r: int)
    decreases e, 1
    ensures r == current || exists n :: n in Preorder(e) && RefinesTo(n, name, info, text, target) && r == n.id
  {
    if RefinesTo(e, name, info, text, target) then e.id
    else RefineIn(e, Children(e), name, info, text, target, current)
  }

  function RefineIn(parent: Expr, cs: seq<Expr>, name: string, info: SourceInfo, text: string, target: int, current: int): (r: int)
    requires forall k :: 0 <= k < |cs| ==> cs[k] < parent
    decreases parent, 0, |cs|
    ensures r == current || exists n :: n in PreorderAll(parent, cs) && RefinesTo(n, name, info, text, target) && r == n.id
  {
    if |cs| == 0 then current
    else
      var afterFirst := Refine(cs[0], name, info, text, target, current);
      RefineIn(parent, cs[1..], name, info, text, target, afterFirst)
  }

  /**
   * `findIdentifierAtPosition`: the last candidate. A top-level candidate
   * whose name never follows a `.` in the text takes the id of a
   * comprehension binding it around the target, when there is one.
   */
  function FindIdentifierAtPosition(e: Expr, info: SourceInfo, text: string, target: int): (r: Option<Identifier>)
    requires WellFormed(info, text)
    ensures r.None? <==> Candidates(e, info, text, target) == []
    ensures r.Some? ==>
      var cs := Candidates(e, info, text, target);
      var last := cs[|cs| - 1];
      && r.value.name == last.name && r.value.kind == last.kind
      && (|| r.value.exprId == last.exprId
          || exists n :: n in Preorder(e) && RefinesTo(n, last.name, info, text, target) && r.value.exprId == n.id)
  {
    var cs := Candidates(e, info, text, target);
    if |cs| == 0 then None
    else
      var best := cs[|cs| - 1];
      if best.kind == TopLevelKind && Index(text, "." + best.name) == -1 then
        Some(best.(exprId := Refine(e, best.name, info, text, target, best.exprId)))
      else Some(best)
  }

  /** `findIdentifierByName`: the first identifier node with that name whose range covers the target. */
  function FindIdentifierByName(e: Expr, info: SourceInfo, text: string, name: string, target: int): (r: Option<Identifier>)
    ensures r.Some? ==> r.value.name == name && r.value.kind == TopLevelKind
                        && Ident(r.value.exprId, name) in Preorder(e) && r.value.exprId in info.ranges
    ensures r.None? <==> forall j :: 0 <= j < |Preorder(e)| ==> !Matches(IdentAround(name, info, text, target), Preorder(e)[j])
  {
    match FindFirst(e, IdentAround(name, info, text, target))
    case Some(n) => Some(Identifier(name, n.id, TopLevelKind))
    case None => None
  }

  /* ---------------- the word around the cursor ---------------- */

  /** Start of the run of identifier bytes that ends at `k`. */
  function WordStart(text: string, k: nat): (s: nat)
    requires k <= |text|
    ensures s <= k
    ensures forall j :: s <= j < k ==> IsIdentifierChar(text[j])
    ensures s == 0 || !IsIdentifierChar(text[s - 1])
  {
    if k > 0 && IsIdentifierChar(text[k - 1]) then WordStart(text, k - 1) else k
  }

  /** End of the run of identifier bytes that starts at `k`. */
  function WordEnd(text: string, k: nat): (e: nat)
    requires k <= |text|
    decreases |text| - k
    ensures k <= e <= |text|
    ensures forall j :: k <= j < e ==> IsIdentifierChar(text[j])
    ensures e == |text| || !IsIdentifierChar(text[e])
  {
    if k < |text| && IsIdentifierChar(text[k]) then WordEnd(text, k + 1) else k
  }

  /** The fallback's two scans: back while the byte before is an identifier byte, forward likewise. */
  method WordAround(text: string, target: nat) returns (start: nat, end: nat)
    requires target < |text|
    ensures start == WordStart(text, target) && end == WordEnd(text, target)
  {
    start := target;
    while start > 0 && IsIdentifierChar(text[start - 1])
      invariant start <= target
      invariant WordStart(text, start) == WordStart(text, target)
    {
      start := start - 1;
    }
    end := target;
    while end < |text| && IsIdentifierChar(text[end])
      invariant target <= end <= |text|
      invariant WordEnd(text, end) == WordEnd(text, target)
      decreases |text| - end
    {
      end := end + 1;
    }
  }

  /**
   * The identifier the rename, highlight and references requests act on:
   * the one at the position, or else the identifier node named by the word
   * around the cursor whose range covers it.
   */
  function ResolveIdentifier(e: Expr, info: SourceInfo, text: string, target: nat): (r: Option<Identifier>)
    requires WellFormed(info, text) && target < |text|
    ensures FindIdentifierAtPosition(e, info, text, target).Some? ==> r == FindIdentifierAtPosition(e, info, text, target)
    ensures r.Some? && FindIdentifierAtPosition(e, info, text, target).None? ==>
      var word := text[WordStart(text, target)..WordEnd(text, target)];
      r == FindIdentifierByName(e, info, text, word, target) && r.value.name == word && word != []
    ensures FindIdentifierAtPosition(e, info, text, target).None? && WordStart(text, target) < WordEnd(text, target) ==>
      r == FindIdentifierByName(e, info, text, text[WordStart(text, target)..WordEnd(text, target)], target)
    ensures FindIdentifierAtPosition(e, info, text, target).None? && WordStart(text, target) == WordEnd(text, target) ==>
      r.None?
  {
    var found := FindIdentifierAtPosition(e, info, text, target);
    if found.Some? then found
    else
      var s := WordStart(text, target);
      var en := WordEnd(text, target);
      if s < en then FindIdentifierByName(e, info, text, text[s..en], target) else None
  }

  /** The lookup as the three requests perform it, with the fallback's scans. */
  method Resolve(e: Expr, info: SourceInfo, text: string, target: nat) returns (ident: Option<Identifier>)
    requires WellFormed(info, text) && target < |text|
    ensures ident == ResolveIdentifier(e, info, text, target)
  {
    ident := FindIdentifierAtPosition(e, info, text, target);
    if ident.None? {
      var start, end := WordAround(text, target);
      if start < end {
        ident := FindIdentifierByName(e, info, text, text[start..end], target);
      }
    }
  }

  /* ---------------- occurrences within a scope ---------------- */

  /** The loop-variable declaration search after an expanded comprehension's range (`for i := byteStop; ...`). */
  function FirstWordFrom(text: string, name: string, i: nat): (r: Option<nat>)
    decreases |text| - i
    ensures r.Some? ==> i <= r.value && WordAt(text, name, r.value)
    ensures r.Some? ==> forall j :: i <= j < r.value ==> !WordAt(text, name, j)
    ensures r.None? ==> forall j :: i <= j ==> !WordAt(text, name, j)
  {
    if i + |name| > |text| then None
    else if WordAt(text, name, i) then Some(i)
    else FirstWordFrom(text, name, i + 1)
  }

  /** The scan loop itself, with its `break` at the first whole-word hit. */
  method ScanDeclaration(text: string, name: string, from: nat) returns (found: Option<nat>)
    ensures found == FirstWordFrom(text, name, from)
  {
    found := None;
    var i := from;
    while i + |name| <= |text|
      invariant from <= i
      invariant FirstWordFrom(text, name, i) == FirstWordFrom(text, name, from)
      decreases |text| - i
    {
      if text[i..i + |name|] == name {
        if (i == 0 || !IsIdentifierChar(text[i - 1])) && (i + |name| >= |text| || !IsIdentifierChar(text[i + |name|])) {
          found := Some(i);
          break;
        }
      }
      i := i + 1;
    }
  }

  datatype Feature = Renaming | Highlighting | Referencing

  /** The occurrences in each expression of `es`, one expression after another. */
  function OccurrencesIn(es: seq<Expr>, info: SourceInfo, text: string, name: string): seq<Range>
  {
    if |es| == 0 then []
    else OccurrencesIn(es[..|es| - 1], info, text, name) + Occurrences(es[|es| - 1], info, text, name)
  }

  /**
   * The declaration of a macro call's loop variable: the first argument's
   * range; highlights alone fall back to the first occurrence of the name in
   * the whole text, kept only when it is a whole word.
   */
  function CallFormDeclaration(call: Expr, info: SourceInfo, text: string, name: string, feature: Feature): (r: seq<Range>)
    requires call.Call? && |call.args| > 0
    ensures |r| <= 1
    ensures r != [] ==> call.args[0].Ident? && call.args[0].name == name
    ensures call.args[0].id in info.ranges && r != [] ==> r == [RangeOf(text, info.ranges[call.args[0].id])]
    ensures call.args[0].id !in info.ranges && r != [] ==>
      && feature == Highlighting
      && var k := Index(text, name); k >= 0 && WordAt(text, name, k) && r == [SpanRange(text, k, k + |name|)]
  {
    var first := call.args[0];
    if first.Ident? && first.name == name then
      if first.id in info.ranges then [RangeOf(text, info.ranges[first.id])]
      else if feature == Highlighting then
        var k := Index(text, name);
        if k >= 0 && WordBounded(text, k, k + |name|) then [SpanRange(text, k, k + |name|)] else []
      else []
    else []
  }

  /**
   * `collectIdentifiersInComprehension` and its highlight and reference
   * counterparts: nothing for a call with fewer than two arguments; else the
   * declaration, then the occurrences in the arguments after the first.
   */
  function CallFormRanges(call: Expr, info: SourceInfo, text: string, name: string, feature: Feature): seq<Range>
    requires call.Call?
  {
    if |call.args| < 2 then []
    else CallFormDeclaration(call, info, text, name, feature) + OccurrencesIn(call.args[1..], info, text, name)
  }

  /**
   * Where the declaration search of an expanded comprehension starts: the
   * end of the iteration range; renaming starts at byte 0 when that range
   * was not recorded, the other requests do not search.
   */
  function ScanStart(comp: Expr, info: SourceInfo, text: string, feature: Feature): (r: Option<nat>)
    requires comp.Comprehension? && WellFormed(info, text)
    ensures r.None? <==> comp.iterRange.id !in info.ranges && feature != Renaming
    ensures comp.iterRange.id in info.ranges ==>
      r == Some(OffsetRangeToByteRange(text, info.ranges[comp.iterRange.id].start, info.ranges[comp.iterRange.id].stop).1)
  {
    var id := comp.iterRange.id;
    if id in info.ranges then
      ByteRangeOfNode(info, text, id);
      Some(OffsetRangeToByteRange(text, info.ranges[id].start, info.ranges[id].stop).1)
    else if feature == Renaming then Some(0)
    else None
  }

  /** The declaration of an expanded comprehension's loop variable: at most one whole-word hit. */
  function ExprFormDeclaration(comp: Expr, info: SourceInfo, text: string, name: string, feature: Feature): (r: seq<Range>)
    requires comp.Comprehension? && WellFormed(info, text)
    ensures |r| <= 1
    ensures r != [] ==> comp.iterVar == name
  {
    if comp.iterVar == name then
      match ScanStart(comp, info, text, feature)
      case Some(from) =>
        (match FirstWordFrom(text, name, from)
         case Some(i) => [SpanRange(text, i, i + |name|)]
         case None => [])
      case None => []
    else []
  }

  /**
   * `collectIdentifiersInComprehensionExpr` and its counterparts: the
   * declaration, then the occurrences in the five parts of the comprehension.
   */
  function ExprFormRanges(comp: Expr, info: SourceInfo, text: string, name: string, feature: Feature): seq<Range>
    requires comp.Comprehension? && WellFormed(info, text)
  {
    ExprFormDeclaration(comp, info, text, name, feature)
      + OccurrencesIn([comp.iterRange, comp.accuInit, comp.loopCondition, comp.loopStep, comp.result], info, text, name)
  }

  /**
   * `findAllOccurrences`, `collectHighlights` and `findAllReferences`: the
   * whole expression for top-level names; for a loop variable, the macro
   * call with the scope's id, else the expanded comprehension with it.
   */
  function ScopedRanges(e: Expr, info: SourceInfo, text: string, scope: Scope, name: string, feature: Feature): seq<Range>
    requires WellFormed(info, text)
  {
    match scope
    case TopLevel => Occurrences(e, info, text, name)
    case LoopVar(id, _) =>
      match FindComprehensionCall(e, id)
      case Some(call) => CallFormRanges(call, info, text, name, feature)
      case None =>
        match FindComprehensionExpr(e, id)
        case Some(comp) => ExprFormRanges(comp, info, text, name, feature)
        case None => []
  }

  /* ---------------- the imperative collectors ---------------- */

  /** The occurrences of each expression of `es` in turn, appended by `CollectOccurrences`. */
  method CollectIn(es: seq<Expr>, info: SourceInfo, text: string, name: string, acc: seq<Range>)
    returns (out: seq<Range>)
    ensures out == acc + OccurrencesIn(es, info, text, name)
  {
    out := acc;
    var i := 0;
    while i < |es|
      invariant 0 <= i <= |es|
      invariant out == acc + OccurrencesIn(es[..i], info, text, name)
    {
      var before := out;
      out := CollectOccurrences(es[i], info, text, name, out);
      OccurrencesInStep(es, i, info, text, name, acc, before, out);
      i := i + 1;
    }
    assert es[..|es|] == es;
  }

  lemma OccurrencesInStep(es: seq<Expr>, i: nat, info: SourceInfo, text: string, name: string,
                          acc: seq<Range>, before: seq<Range>, after: seq<Range>)
    requires i < |es|
    requires before == acc + OccurrencesIn(es[..i], info, text, name)
    requires after == before + Occurrences(es[i], info, text, name)
    ensures after == acc + OccurrencesIn(es[..i + 1], info, text, name)
  {
    var p := es[..i + 1];
    assert p[..i] == es[..i] && p[i] == es[i];
    OccurrencesInLast(p, info, text, name);
    AppendAssoc(acc, OccurrencesIn(es[..i], info, text, name), Occurrences(es[i], info, text, name));
  }

  lemma OccurrencesInLast(es: seq<Expr>, info: SourceInfo, text: string, name: string)
    requires |es| > 0
    ensures OccurrencesIn(es, info, text, name)
         == OccurrencesIn(es[..|es| - 1], info, text, name) + Occurrences(es[|es| - 1], info, text, name)
  {
  }

  /** The protocol range of the bytes `[b, e)`, converted position by position. */
  method SpanAt(text: string, b: int, e: int) returns (r: Range)
    ensures r == SpanRange(text, b, e)
  {
    var sl, sc := ByteOffsetToLineCol(text, b);
    var el, ec := ByteOffsetToLineCol(text, e);
    r := Range(Position(sl, sc), Position(el, ec));
  }

  /** The declaration step of the collector for a loop macro call. */
  method DeclareInCallForm(call: Expr, info: SourceInfo, text: string, name: string, feature: Feature)
    returns (out: seq<Range>)
    requires call.Call? && |call.args| > 0
    ensures out == CallFormDeclaration(call, info, text, name, feature)
  {
    out := [];
    var first := call.args[0];
    if first.Ident? && first.name == name {
      if first.id in info.ranges {
        out := AppendOwnOccurrence(first, info, text, name, out);
      } else if feature == Highlighting {
        var k := Index(text, name);
        if k >= 0 && (k == 0 || !IsIdentifierChar(text[k - 1]))
           && (k + |name| >= |text| || !IsIdentifierChar(text[k + |name|])) {
          var r := SpanAt(text, k, k + |name|);
          out := [r];
        }
      }
    }
  }

  /** The collector for a loop macro call. */
  method CollectInCallForm(call: Expr, info: SourceInfo, text: string, name: string, feature: Feature)
    returns (out: seq<Range>)
    requires call.Call?
    ensures out == CallFormRanges(call, info, text, name, feature)
  {
    if |call.args| < 2 {
      return [];
    }
    out := DeclareInCallForm(call, info, text, name, feature);
    out := CollectIn(call.args[1..], info, text, name, out);
  }

  /** The declaration step of the collector for an expanded comprehension. */
  method DeclareInExprForm(comp: Expr, info: SourceInfo, text: string, name: string, feature: Feature)
    returns (out: seq<Range>)
    requires comp.Comprehension? && WellFormed(info, text)
    ensures out == ExprFormDeclaration(comp, info, text, name, feature)
  {
    out := [];
    if comp.iterVar == name {
      var start := ScanStart(comp, info, text, feature);
      if start.Some? {
        var found := ScanDeclaration(text, name, start.value);
        if found.Some? {
          var r := SpanAt(text, found.value, found.value + |name|);
          out := [r];
        }
      }
    }
  }

  /** The collector for an expanded comprehension. */
  method CollectInExprForm(comp: Expr, info: SourceInfo, text: string, name: string, feature: Feature)
    returns (out: seq<Range>)
    requires comp.Comprehension? && WellFormed(info, text)
    ensures out == ExprFormRanges(comp, info, text, name, feature)
  {
    out := DeclareInExprForm(comp, info, text, name, feature);
    out := CollectIn([comp.iterRange, comp.accuInit, comp.loopCondition, comp.loopStep, comp.result], info, text, name, out);
  }

  /** The scoped collection as the three requests perform it. */
  method CollectScoped(e: Expr, info: SourceInfo, text: string, scope: Scope, name: string, feature: Feature)
    returns (out: seq<Range>)
    requires WellFormed(info, text)
    ensures out == ScopedRanges(e, info, text, scope, name, feature)
  {
    match scope
    case TopLevel =>
      out := CollectOccurrences(e, info, text, name, []);
    case LoopVar(id, _) =>
      var call := FindComprehensionCall(e, id);
      if call.Some? {
        out := CollectInCallForm(call.value, info, text, name, feature);
      } else {
        var comp := FindComprehensionExpr(e, id);
        if comp.Some? {
          out := CollectInExprForm(comp.value, info, text, name, feature);
        } else {
          out := [];
        }
      }
  }

  /* ---------------- what the scoped collection guarantees ---------------- */

  /** A top-level name is collected from the whole tree, the same for every request. */
  lemma TopLevelIsWholeTree(e: Expr, info: SourceInfo, text: string, name: string, f: Feature)
    requires WellFormed(info, text)
    ensures ScopedRanges(e, info, text, TopLevel, name, f) == Occurrences(e, info, text, name)
  {
  }

  /** Each node of a node's subtree belongs to the enclosing tree. */
  lemma {:induction false} PreorderTransitive(e: Expr, c: Expr, n: Expr)
    requires c in Preorder(e) && n in Preorder(c)
    ensures n in Preorder(e)
    decreases e, 1
  {
    if c != e {
      assert c in PreorderAll(e, Children(e));
      PreorderAllTransitive(e, Children(e), c, n);
    }
  }

  lemma {:induction false} PreorderAllTransitive(parent: Expr, cs: seq<Expr>, c: Expr, n: Expr)
    requires forall k :: 0 <= k < |cs| ==> cs[k] < parent
    requires c in PreorderAll(parent, cs) && n in Preorder(c)
    ensures n in PreorderAll(parent, cs)
    decreases parent, 0, |cs|
  {
    if c in Preorder(cs[0]) {
      PreorderTransitive(cs[0], c, n);
    } else {
      PreorderAllTransitive(parent, cs[1..], c, n);
    }
  }

  /** Every node of the tree has a recorded range. */
  predicate AllRanged(e: Expr, info: SourceInfo)
  {
    forall j :: 0 <= j < |Preorder(e)| ==> Preorder(e)[j].id in info.ranges
  }

  lemma AllRangedSub(e: Expr, c: Expr, n: Expr, info: SourceInfo)
    requires AllRanged(e, info) && c in Preorder(e) && n in Preorder(c)
    ensures n.id in info.ranges
  {
    PreorderTransitive(e, c, n);
    var j :| 0 <= j < |Preorder(e)| && Preorder(e)[j] == n;
  }

  /** The first argument of a call is a node of the call's subtree. */
  lemma FirstArgumentInSubtree(c: Expr)
    requires c.Call? && |c.args| > 0
    ensures c.args[0] in Preorder(c)
  {
    assert Children(c)[0] == c.args[0];
    assert PreorderAll(c, Children(c)) == Preorder(c.args[0]) + PreorderAll(c, Children(c)[1..]);
  }

  /** The iteration range of a comprehension is a node of its subtree. */
  lemma IterRangeInSubtree(c: Expr)
    requires c.Comprehension?
    ensures c.iterRange in Preorder(c)
  {
    assert Children(c)[0] == c.iterRange;
    assert PreorderAll(c, Children(c)) == Preorder(c.iterRange) + PreorderAll(c, Children(c)[1..]);
  }

  lemma CallFormAgrees(c: Expr, info: SourceInfo, text: string, name: string, f: Feature, g: Feature)
    requires c.Call? && (|c.args| >= 2 ==> c.args[0].id in info.ranges)
    ensures CallFormRanges(c, info, text, name, f) == CallFormRanges(c, info, text, name, g)
  {
  }

  lemma ExprFormAgrees(c: Expr, info: SourceInfo, text: string, name: string, f: Feature, g: Feature)
    requires c.Comprehension? && WellFormed(info, text) && c.iterRange.id in info.ranges
    ensures ExprFormRanges(c, info, text, name, f) == ExprFormRanges(c, info, text, name, g)
  {
    assert ScanStart(c, info, text, f) == ScanStart(c, info, text, g);
    assert ExprFormDeclaration(c, info, text, name, f) == ExprFormDeclaration(c, info, text, name, g);
  }

  /**
   * When the parser recorded a range for every node, rename, highlight and
   * references collect the same ranges in every scope: their declaration
   * fallbacks never come into play.
   */
  lemma FeaturesAgreeWhenAllRanged(e: Expr, info: SourceInfo, text: string, scope: Scope, name: string, f: Feature, g: Feature)
    requires WellFormed(info, text) && AllRanged(e, info)
    ensures ScopedRanges(e, info, text, scope, name, f) == ScopedRanges(e, info, text, scope, name, g)
  {
    if scope.LoopVar? {
      var call := FindComprehensionCall(e, scope.comprehensionId);
      if call.Some? {
        var c := call.value;
        if |c.args| >= 2 {
          FirstArgumentInSubtree(c);
          AllRangedSub(e, c, c.args[0], info);
        }
        CallFormAgrees(c, info, text, name, f, g);
      } else {
        var comp := FindComprehensionExpr(e, scope.comprehensionId);
        if comp.Some? {
          IterRangeInSubtree(comp.value);
          AllRangedSub(e, comp.value, comp.value.iterRange, info);
          ExprFormAgrees(comp.value, info, text, name, f, g);
        }
      }
    }
  }

  /* ---------------- the rename requests ---------------- */

  datatype RenameResult =
    | Rejected(error: NameError)
    | NoRename
    | Renamed(uri: string, edits: seq<TextEdit>)

  /** The rename edits for an identifier: the occurrences in its scope, each carrying the new name. */
  function RenameEdits(e: Expr, info: SourceInfo, text: string, ident: Identifier, newName: string): (es: seq<TextEdit>)
    requires WellFormed(info, text)
    ensures forall k :: 0 <= k < |es| ==> es[k].newText == newName
  {
    var scope := DetermineScope(ident.exprId, ident.name, e);
    Edits(ScopedRanges(e, info, text, scope, ident.name, Renaming), newName)
  }

  /**
   * `computeRename`. `parsed` is the parser's result for `content` (none on
   * a parse error) and `target` the byte offset of the requested position.
   */
  method ComputeRename(uri: string, content: string, parsed: Option<(Expr, SourceInfo)>, target: int, newName: string)
    returns (r: RenameResult)
    requires parsed.Some? ==> WellFormed(parsed.value.1, content)
    ensures ValidateNewName(newName).Some? <==> r.Rejected?
    ensures r.Rejected? ==> r.error == ValidateNewName(newName).value
    ensures (parsed.None? || target < 0 || target >= |content|) && !r.Rejected? ==> r == NoRename
    ensures r.Renamed? ==>
      && parsed.Some? && 0 <= target < |content|
      && var (e, info) := parsed.value;
         var ident := ResolveIdentifier(e, info, content, target);
         && ident.Some?
         && r == Renamed(uri, RenameEdits(e, info, content, ident.value, newName))
         && r.edits != []
    ensures r == NoRename && parsed.Some? && 0 <= target < |content| ==>
      var (e, info) := parsed.value;
      var ident := ResolveIdentifier(e, info, content, target);
      ident.None? || RenameEdits(e, info, content, ident.value, newName) == []
  {
    var invalid := ValidateNewName(newName);
    if invalid.Some? {
      return Rejected(invalid.value);
    }
    if parsed.None? {
      return NoRename;
    }
    var (e, info) := parsed.value;
    if target < 0 || target >= |content| {
      return NoRename;
    }
    var ident := Resolve(e, info, content, target);
    if ident.None? {
      return NoRename;
    }
    var scope := DetermineScope(ident.value.exprId, ident.value.name, e);
    var ranges := CollectScoped(e, info, content, scope, ident.value.name, Renaming);
    var edits := Edits(ranges, newName);
    if |edits| == 0 {
      return NoRename;
    }
    r := Renamed(uri, edits);
  }

  /**
   * `computePrepareRename`: the range of the identifier at the position,
   * unless it is a function name or has no recorded range. There is no
   * word-around fallback here.
   */
  function ComputePrepareRename(content: string, parsed: Option<(Expr, SourceInfo)>, target: int): (r: Option<Range>)
    requires parsed.Some? ==> WellFormed(parsed.value.1, content)
    ensures r.Some? <==>
      && parsed.Some? && 0 <= target < |content|
      && var found := FindIdentifierAtPosition(parsed.value.0, parsed.value.1, content, target);
         found.Some? && found.value.kind == TopLevelKind && found.value.exprId in parsed.value.1.ranges
    ensures r.Some? ==>
      var found := FindIdentifierAtPosition(parsed.value.0, parsed.value.1, content, target);
      r.value == RangeOf(content, parsed.value.1.ranges[found.value.exprId])
  {
    if parsed.None? || target < 0 || target >= |content| then None
    else
      var (e, info) := parsed.value;
      match FindIdentifierAtPosition(e, info, content, target)
      case None => None
      case Some(ident) =>
        if ident.kind == FunctionKind || ident.exprId !in info.ranges then None
        else Some(RangeOf(content, info.ranges[ident.exprId]))
  }
}
