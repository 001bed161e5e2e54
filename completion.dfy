/**
 * internal/lsp/completion.go: completion items for a CEL document.
 *
 * After a '.', the items are the member functions whose receiver accepts the
 * type of the expression before the dot. Anywhere else they are the global
 * functions, then the macros, then the keywords `true`, `false` and `null`.
 * When the cursor follows a binary operator whose right operand can have
 * only one type, functions and keywords are narrowed to that type.
 *
 * cel-go's environment is a parameter: its functions (listed in the order
 * the Go map happens to yield them), its macros, the operator tables
 * `operators.FindReverse` and `operators.FindReverseBinaryOperator`, the
 * compiler (`Compile(...).OutputType()`) and `Type.IsAssignableType`.
 */
module Completion {
  import opened Text
  import opened Protocol
  import Sorting

  /** A CEL type, identified by its `String()` form. */
  datatype CelType = CelType(name: string)

  datatype Overload = Overload(isMember: bool, argTypes: seq<CelType>, resultType: CelType)

  datatype FunctionInfo = FunctionInfo(name: string, description: string, overloads: seq<Overload>)

  /**
   * What completion needs from cel-go. `assignable(a, b)` is
   * `a.IsAssignableType(b)`; `compile(text)` is the output type of the
   * checked expression, or none when compilation reports an error.
   */
  datatype Env = Env(functions: seq<FunctionInfo>, macros: seq<string>,
                     reverse: map<string, string>, binaryReverse: map<string, string>,
                     compile: string -> Option<CelType>, assignable: (CelType, CelType) -> bool)

  /** The literal keywords offered as completions. */
  const Keywords: seq<string> := ["true", "false", "null"]

  /** The cutset `" \t\r\n"` trimmed off the text before the cursor. */
  const LineSpace: set<char> := {' ', '\t', '\r', '\n'}

  /** Names are distinct: the environment's functions come from a map. */
  predicate DistinctNames(fns: seq<FunctionInfo>)
  {
    forall i, j :: 0 <= i < j < |fns| ==> fns[i].name != fns[j].name
  }

  /* ---------------- the cursor context ---------------- */

  /**
   * `isDotContext`: the byte just before the cursor offset is a '.', that is
   * the text before the cursor ends with a dot. Offsets outside the content
   * are never a dot context.
   */
  function IsDotContext(content: string, offset: int): (b: bool)
    ensures b <==> 0 <= offset <= |content| && HasSuffix(content[..offset], ".")
  {
    0 < offset <= |content| && content[offset - 1] == '.'
  }

  /** `receiverTypeAtDot`: the type of the expression before the dot at `offset - 1`. */
  function ReceiverTypeAtDot(content: string, offset: int, compile: string -> Option<CelType>): (r: Option<CelType>)
    ensures offset <= 0 || offset > |content| ==> r.None?
    ensures r.Some? ==>
      var before := TrimRightSet(content[..offset - 1], LineSpace);
      before != "" && compile(before) == r
  {
    if offset <= 0 || offset > |content| then None
    else
      var before := TrimRightSet(content[..offset - 1], LineSpace);
      if before == "" then None else compile(before)
  }

  /** Only white space before the dot: no receiver type, whatever the compiler would say. */
  lemma BlankReceiverHasNoType(content: string, offset: int, compile: string -> Option<CelType>)
    requires 0 < offset <= |content|
    requires forall k :: 0 <= k < offset - 1 ==> content[k] in LineSpace
    ensures ReceiverTypeAtDot(content, offset, compile).None?
  {
    TrimRightAllCut(content[..offset - 1], LineSpace);
  }

  /** `isTypeParam`: the type prints as `<...>`, like `<A>`. */
  predicate IsTypeParam(t: CelType)
  {
    |t.name| > 0 && t.name[0] == '<' && HasSuffix(t.name, ">")
  }

  /** `typeMatches`: no expected type accepts every type. */
  predicate TypeMatches(expected: Option<CelType>, t: CelType, assignable: (CelType, CelType) -> bool)
  {
    expected.None? || assignable(expected.value, t)
  }

  /** `isOperatorOrInternal`: an operator's internal name, or a name starting with '@' or '_'. */
  predicate IsOperatorOrInternal(name: string, reverse: map<string, string>)
  {
    name in reverse || (|name| > 0 && (name[0] == '@' || name[0] == '_'))
  }

  /* ---------------- details ---------------- */

  function TypeNames(ts: seq<CelType>): (r: seq<string>)
    ensures |r| == |ts| && forall k :: 0 <= k < |ts| ==> r[k] == ts[k].name
  {
    if |ts| == 0 then [] else TypeNames(ts[..|ts| - 1]) + [ts[|ts| - 1].name]
  }

  /**
   * `formatOverloadSignature`: `name(arg, ...) -> result`, or
   * `receiver.name(arg, ...) -> result` for a member overload with arguments.
   */
  function FormatOverloadSignature(name: string, o: Overload): string
  {
    var member := o.isMember && |o.argTypes| > 0;
    var prefix := if member then o.argTypes[0].name + "." else "";
    var rest := if member then o.argTypes[1..] else o.argTypes;
    prefix + name + "(" + JoinWith(TypeNames(rest), ", ") + ") -> " + o.resultType.name
  }

  /** The signature names the receiver type for a member overload with arguments, and ends in the result type. */
  lemma SignatureShape(name: string, o: Overload)
    ensures HasSuffix(FormatOverloadSignature(name, o), ") -> " + o.resultType.name)
    ensures o.isMember && |o.argTypes| > 0 ==> o.argTypes[0].name + "." + name + "(" <= FormatOverloadSignature(name, o)
    ensures !(o.isMember && |o.argTypes| > 0) ==> name + "(" <= FormatOverloadSignature(name, o)
  {
    var member := o.isMember && |o.argTypes| > 0;
    var prefix := if member then o.argTypes[0].name + "." else "";
    var rest := if member then o.argTypes[1..] else o.argTypes;
    var head := prefix + name + "(";
    var tail := ") -> " + o.resultType.name;
    var r := head + JoinWith(TypeNames(rest), ", ") + tail;
    assert FormatOverloadSignature(name, o) == r;
    assert r[|r| - |tail|..] == tail;
    assert r[..|head|] == head;
  }

  /** The first overload that is not a member overload. */
  function FirstGlobal(os: seq<Overload>): (r: Option<nat>)
    ensures r.Some? ==> r.value < |os| && !os[r.value].isMember
                        && forall j :: 0 <= j < r.value ==> os[j].isMember
    ensures r.None? ==> forall j :: 0 <= j < |os| ==> os[j].isMember
  {
    if |os| == 0 then None
    else if !os[0].isMember then Some(0)
    else match FirstGlobal(os[1..])
      case None => None
      case Some(k) => Some(k + 1)
  }

  /** `globalFunctionDetail`: the signature of the first non-member overload, or "". */
  method GlobalFunctionDetail(fn: FunctionInfo) returns (detail: string)
    ensures detail == match FirstGlobal(fn.overloads)
                        case None => ""
                        case Some(k) => FormatOverloadSignature(fn.name, fn.overloads[k])
  {
    var i := 0;
    while i < |fn.overloads|
      invariant 0 <= i <= |fn.overloads|
      invariant forall j :: 0 <= j < i ==> fn.overloads[j].isMember
    {
      if !fn.overloads[i].isMember {
        assert FirstGlobal(fn.overloads) == Some(i);
        return FormatOverloadSignature(fn.name, fn.overloads[i]);
      }
      i := i + 1;
    }
    assert FirstGlobal(fn.overloads).None?;
    return "";
  }

  /* ---------------- the item lists ---------------- */

  /** Items ordered by `cmp.Compare` on their labels. */
  predicate LabelLe(a: CompletionItem, b: CompletionItem)
  {
    ByteOrderLe(a.labelText, b.labelText)
  }

  lemma LabelOrder()
    ensures Sorting.Total(LabelLe) && Sorting.Transitive(LabelLe)
  {
    forall a: CompletionItem, b: CompletionItem
      ensures LabelLe(a, b) || LabelLe(b, a)
    {
      ByteOrderTotal(a.labelText, b.labelText);
    }
    forall a: CompletionItem, b: CompletionItem, c: CompletionItem | LabelLe(a, b) && LabelLe(b, c)
      ensures LabelLe(a, c)
    {
      ByteOrderTransitive(a.labelText, b.labelText, c.labelText);
    }
  }

  /** `items` is `spec` sorted by label. */
  ghost predicate SortedPermutation(items: seq<CompletionItem>, spec: seq<CompletionItem>)
  {
    Sorting.SortedBy(items, LabelLe) && multiset(items) == multiset(spec)
  }

  /** `slices.SortFunc(items, ...)` by label. */
  method SortByLabel(items: seq<CompletionItem>) returns (sorted: seq<CompletionItem>)
    ensures SortedPermutation(sorted, items)
  {
    LabelOrder();
    sorted := Sorting.Sorted(items, LabelLe);
  }

  /** Sorted by label with distinct labels: the labels strictly increase, so each occurs once. */
  lemma {:induction false} SortedDistinctLabels(items: seq<CompletionItem>, i: nat, j: nat)
    requires Sorting.SortedBy(items, LabelLe)
    requires i < j < |items| && items[i].labelText == items[j].labelText
    ensures forall k :: i <= k <= j ==> items[k].labelText == items[i].labelText
  {
    forall k | i <= k <= j
      ensures items[k].labelText == items[i].labelText
    {
      if i < k < j {
        assert LabelLe(items[i], items[k]) && LabelLe(items[k], items[j]);
        ByteOrderAntisymmetric(items[i].labelText, items[k].labelText);
      }
    }
  }

  /* member functions */

  /** An overload offered after a dot whose receiver has type `receiver` (when known). */
  predicate MemberMatches(o: Overload, receiver: Option<CelType>, assignable: (CelType, CelType) -> bool)
  {
    o.isMember && (receiver.None? || |o.argTypes| == 0 || assignable(o.argTypes[0], receiver.value))
  }

  /** The matching overloads, in order. */
  function MatchingOverloads(os: seq<Overload>, receiver: Option<CelType>,
                             assignable: (CelType, CelType) -> bool): seq<Overload>
  {
    if |os| == 0 then []
    else
      var last := os[|os| - 1];
      MatchingOverloads(os[..|os| - 1], receiver, assignable)
        + (if MemberMatches(last, receiver, assignable) then [last] else [])
  }

  /** The filter keeps exactly the matching overloads. */
  lemma {:induction false} MatchingOverloadsKeeps(os: seq<Overload>, receiver: Option<CelType>,
                                                  assignable: (CelType, CelType) -> bool)
    ensures forall o :: o in MatchingOverloads(os, receiver, assignable) <==> o in os && MemberMatches(o, receiver, assignable)
  {
    if |os| > 0 {
      MatchingOverloadsKeeps(os[..|os| - 1], receiver, assignable);
      assert os == os[..|os| - 1] + [os[|os| - 1]];
    }
  }

  function MemberItem(fn: FunctionInfo, first: Overload): CompletionItem
  {
    CompletionItem(fn.name, CompletionKindMethod, FormatOverloadSignature(fn.name, first), fn.description,
                   fn.name + "($1)", true)
  }

  /** The item `fn` contributes, if any. */
  function MemberItemOf(fn: FunctionInfo, receiver: Option<CelType>, env: Env): seq<CompletionItem>
  {
    var matching := MatchingOverloads(fn.overloads, receiver, env.assignable);
    if IsOperatorOrInternal(fn.name, env.reverse) || |matching| == 0 then [] else [MemberItem(fn, matching[0])]
  }

  /** The member items of `fns`, in the order of `fns`, before sorting. */
  function MemberItems(fns: seq<FunctionInfo>, receiver: Option<CelType>, env: Env): seq<CompletionItem>
  {
    if |fns| == 0 then []
    else
      MemberItems(fns[..|fns| - 1], receiver, env) + MemberItemOf(fns[|fns| - 1], receiver, env)
  }

  /** Member items are snippet method items, and none is an operator or internal name. */
  lemma {:induction false} MemberItemsNeverInternal(fns: seq<FunctionInfo>, receiver: Option<CelType>, env: Env)
    ensures |MemberItems(fns, receiver, env)| <= |fns|
    ensures forall it :: it in MemberItems(fns, receiver, env) ==>
              && !IsOperatorOrInternal(it.labelText, env.reverse)
              && it.kind == CompletionKindMethod && it.snippet
  {
    if |fns| > 0 {
      MemberItemsNeverInternal(fns[..|fns| - 1], receiver, env);
    }
  }

  /** Some item is labelled `name`. */
  predicate Offered(items: seq<CompletionItem>, name: string)
  {
    exists k :: 0 <= k < |items| && items[k].labelText == name
  }

  lemma OfferedAppend(a: seq<CompletionItem>, b: seq<CompletionItem>, name: string)
    ensures Offered(a + b, name) <==> Offered(a, name) || Offered(b, name)
  {
    if Offered(b, name) {
      var k :| 0 <= k < |b| && b[k].labelText == name;
      assert (a + b)[|a| + k] == b[k];
    }
    if Offered(a, name) {
      var k :| 0 <= k < |a| && a[k].labelText == name;
      assert (a + b)[k] == a[k];
    }
  }

  /** A function offered after a dot: neither an operator nor internal, with an overload matching the receiver. */
  predicate MemberQualifies(fn: FunctionInfo, receiver: Option<CelType>, env: Env)
  {
    && !IsOperatorOrInternal(fn.name, env.reverse)
    && exists k :: 0 <= k < |fn.overloads| && MemberMatches(fn.overloads[k], receiver, env.assignable)
  }

  lemma MemberItemOfOffer(fn: FunctionInfo, receiver: Option<CelType>, env: Env, name: string)
    ensures Offered(MemberItemOf(fn, receiver, env), name) <==> OffersMember(fn, name, receiver, env)
  {
    var matching := MatchingOverloads(fn.overloads, receiver, env.assignable);
    var items := MemberItemOf(fn, receiver, env);
    MatchingOverloadsKeeps(fn.overloads, receiver, env.assignable);
    if MemberQualifies(fn, receiver, env) {
      var k :| 0 <= k < |fn.overloads| && MemberMatches(fn.overloads[k], receiver, env.assignable);
      assert fn.overloads[k] in matching;
    }
    if |matching| > 0 {
      assert matching[0] in matching;
    }
    assert |items| > 0 <==> MemberQualifies(fn, receiver, env);
    if |items| > 0 {
      assert items[0].labelText == fn.name;
    }
  }

  /** `fn` is offered after a dot under the label `name`. */
  predicate OffersMember(fn: FunctionInfo, name: string, receiver: Option<CelType>, env: Env)
  {
    fn.name == name && MemberQualifies(fn, receiver, env)
  }

  lemma {:induction false} MemberItemsComplete(fns: seq<FunctionInfo>, i: nat, receiver: Option<CelType>, env: Env)
    requires i < |fns| && MemberQualifies(fns[i], receiver, env)
    ensures Offered(MemberItems(fns, receiver, env), fns[i].name)
  {
    var init, fn := fns[..|fns| - 1], fns[|fns| - 1];
    OfferedAppend(MemberItems(init, receiver, env), MemberItemOf(fn, receiver, env), fns[i].name);
    if i < |init| {
      assert init[i] == fns[i];
      MemberItemsComplete(init, i, receiver, env);
    } else {
      MemberItemOfOffer(fn, receiver, env, fns[i].name);
    }
  }

  lemma {:induction false} MemberItemsSound(fns: seq<FunctionInfo>, name: string, receiver: Option<CelType>, env: Env)
    requires Offered(MemberItems(fns, receiver, env), name)
    ensures exists i :: 0 <= i < |fns| && OffersMember(fns[i], name, receiver, env)
  {
    var init, fn := fns[..|fns| - 1], fns[|fns| - 1];
    OfferedAppend(MemberItems(init, receiver, env), MemberItemOf(fn, receiver, env), name);
    if Offered(MemberItems(init, receiver, env), name) {
      MemberItemsSound(init, name, receiver, env);
      var i :| 0 <= i < |init| && OffersMember(init[i], name, receiver, env);
      assert fns[i] == init[i];
    } else {
      MemberItemOfOffer(fn, receiver, env, name);
      assert OffersMember(fns[|fns| - 1], name, receiver, env);
    }
  }

  /** A function is offered after a dot exactly when it qualifies. */
  lemma MemberItemsOffer(fns: seq<FunctionInfo>, receiver: Option<CelType>, env: Env, name: string)
    ensures Offered(MemberItems(fns, receiver, env), name)
        <==> exists i :: 0 <= i < |fns| && OffersMember(fns[i], name, receiver, env)
  {
    if Offered(MemberItems(fns, receiver, env), name) {
      MemberItemsSound(fns, name, receiver, env);
    }
    if exists i :: 0 <= i < |fns| && OffersMember(fns[i], name, receiver, env) {
      var i :| 0 <= i < |fns| && OffersMember(fns[i], name, receiver, env);
      MemberItemsComplete(fns, i, receiver, env);
    }
  }

  /** The overload loop of `memberCompletionItems`. */
  method CollectMatchingOverloads(os: seq<Overload>, receiver: Option<CelType>, assignable: (CelType, CelType) -> bool)
    returns (matching: seq<Overload>)
    ensures matching == MatchingOverloads(os, receiver, assignable)
  {
    matching := [];
    var j := 0;
    while j < |os|
      invariant 0 <= j <= |os|
      invariant matching == MatchingOverloads(os[..j], receiver, assignable)
    {
      assert os[..j + 1][..j] == os[..j];
      if MemberMatches(os[j], receiver, assignable) {
        matching := matching + [os[j]];
      }
      j := j + 1;
    }
    assert os[..j] == os;
  }

  lemma MemberItemsStep(fns: seq<FunctionInfo>, i: nat, receiver: Option<CelType>, env: Env)
    requires i < |fns|
    ensures MemberItems(fns[..i + 1], receiver, env) == MemberItems(fns[..i], receiver, env) + MemberItemOf(fns[i], receiver, env)
  {
    assert fns[..i + 1][..i] == fns[..i];
  }

  /** `memberCompletionItems`. */
  method MemberCompletionItems(env: Env, receiver: Option<CelType>) returns (items: seq<CompletionItem>)
    ensures SortedPermutation(items, MemberItems(env.functions, receiver, env))
  {
    var unsorted := [];
    var i := 0;
    while i < |env.functions|
      invariant 0 <= i <= |env.functions|
      invariant unsorted == MemberItems(env.functions[..i], receiver, env)
    {
      var fn := env.functions[i];
      MemberItemsStep(env.functions, i, receiver, env);
      if !IsOperatorOrInternal(fn.name, env.reverse) {
        var matching := CollectMatchingOverloads(fn.overloads, receiver, env.assignable);
        if |matching| > 0 {
          unsorted := unsorted + [MemberItem(fn, matching[0])];
        }
      }
      i := i + 1;
    }
    assert env.functions[..i] == env.functions;
    items := SortByLabel(unsorted);
  }

  /* global functions */

  /** `fn` has a non-member overload whose result type matches. */
  predicate HasMatchingGlobal(fn: FunctionInfo, expected: Option<CelType>, assignable: (CelType, CelType) -> bool)
  {
    exists k :: 0 <= k < |fn.overloads| && !fn.overloads[k].isMember
                && TypeMatches(expected, fn.overloads[k].resultType, assignable)
  }

  function GlobalDetail(fn: FunctionInfo): string
  {
    match FirstGlobal(fn.overloads)
    case None => ""
    case Some(k) => FormatOverloadSignature(fn.name, fn.overloads[k])
  }

  function GlobalItem(fn: FunctionInfo): CompletionItem
  {
    CompletionItem(fn.name, CompletionKindFunction, GlobalDetail(fn), fn.description, fn.name + "($1)", true)
  }

  /** The item `fn` contributes, if any. */
  function GlobalItemOf(fn: FunctionInfo, expected: Option<CelType>, env: Env): seq<CompletionItem>
  {
    if IsOperatorOrInternal(fn.name, env.reverse) || !HasMatchingGlobal(fn, expected, env.assignable) then []
    else [GlobalItem(fn)]
  }

  /** A function offered as a global: neither an operator nor internal, with a matching non-member overload. */
  predicate GlobalQualifies(fn: FunctionInfo, expected: Option<CelType>, env: Env)
  {
    !IsOperatorOrInternal(fn.name, env.reverse) && HasMatchingGlobal(fn, expected, env.assignable)
  }

  /** The global items of `fns`, in the order of `fns`, before sorting. */
  function GlobalItems(fns: seq<FunctionInfo>, expected: Option<CelType>, env: Env): seq<CompletionItem>
  {
    if |fns| == 0 then []
    else GlobalItems(fns[..|fns| - 1], expected, env) + GlobalItemOf(fns[|fns| - 1], expected, env)
  }

  /**
   * Global items are snippet function items with a signature as detail, and
   * none is an operator or internal name.
   */
  lemma {:induction false} GlobalItemsNeverInternal(fns: seq<FunctionInfo>, expected: Option<CelType>, env: Env)
    ensures |GlobalItems(fns, expected, env)| <= |fns|
    ensures forall it :: it in GlobalItems(fns, expected, env) ==>
              && !IsOperatorOrInternal(it.labelText, env.reverse)
              && it.kind == CompletionKindFunction && it.detail != "" && it.snippet
  {
    if |fns| > 0 {
      var fn := fns[|fns| - 1];
      GlobalItemsNeverInternal(fns[..|fns| - 1], expected, env);
      if GlobalQualifies(fn, expected, env) {
        assert FirstGlobal(fn.overloads).Some?;
      }
    }
  }

  lemma GlobalItemOfOffer(fn: FunctionInfo, expected: Option<CelType>, env: Env, name: string)
    ensures Offered(GlobalItemOf(fn, expected, env), name) <==> OffersGlobal(fn, name, expected, env)
  {
    var items := GlobalItemOf(fn, expected, env);
    if |items| > 0 {
      assert items[0].labelText == fn.name;
    }
  }

  /** `fn` is offered as a global under the label `name`. */
  predicate OffersGlobal(fn: FunctionInfo, name: string, expected: Option<CelType>, env: Env)
  {
    fn.name == name && GlobalQualifies(fn, expected, env)
  }

  lemma {:induction false} GlobalItemsComplete(fns: seq<FunctionInfo>, i: nat, expected: Option<CelType>, env: Env)
    requires i < |fns| && GlobalQualifies(fns[i], expected, env)
    ensures Offered(GlobalItems(fns, expected, env), fns[i].name)
  {
    var init, fn := fns[..|fns| - 1], fns[|fns| - 1];
    OfferedAppend(GlobalItems(init, expected, env), GlobalItemOf(fn, expected, env), fns[i].name);
    if i < |init| {
      assert init[i] == fns[i];
      GlobalItemsComplete(init, i, expected, env);
    } else {
      GlobalItemOfOffer(fn, expected, env, fns[i].name);
    }
  }

  lemma {:induction false} GlobalItemsSound(fns: seq<FunctionInfo>, name: string, expected: Option<CelType>, env: Env)
    requires Offered(GlobalItems(fns, expected, env), name)
    ensures exists i :: 0 <= i < |fns| && OffersGlobal(fns[i], name, expected, env)
  {
    var init, fn := fns[..|fns| - 1], fns[|fns| - 1];
    OfferedAppend(GlobalItems(init, expected, env), GlobalItemOf(fn, expected, env), name);
    if Offered(GlobalItems(init, expected, env), name) {
      GlobalItemsSound(init, name, expected, env);
      var i :| 0 <= i < |init| && OffersGlobal(init[i], name, expected, env);
      assert fns[i] == init[i];
    } else {
      GlobalItemOfOffer(fn, expected, env, name);
      assert OffersGlobal(fns[|fns| - 1], name, expected, env);
    }
  }

  /**
   * A function is offered as a global exactly when it is neither an operator
   * nor internal and one of its non-member overloads returns a type the
   * expected type accepts.
   */
  lemma GlobalItemsOffer(fns: seq<FunctionInfo>, expected: Option<CelType>, env: Env, name: string)
    ensures Offered(GlobalItems(fns, expected, env), name)
        <==> exists i :: 0 <= i < |fns| && OffersGlobal(fns[i], name, expected, env)
  {
    if Offered(GlobalItems(fns, expected, env), name) {
      GlobalItemsSound(fns, name, expected, env);
    }
    if exists i :: 0 <= i < |fns| && OffersGlobal(fns[i], name, expected, env) {
      var i :| 0 <= i < |fns| && OffersGlobal(fns[i], name, expected, env);
      GlobalItemsComplete(fns, i, expected, env);
    }
  }

  /** With no expected type every function with a non-member overload is offered. */
  lemma NoExpectedTypeOffersAllGlobals(fn: FunctionInfo, assignable: (CelType, CelType) -> bool)
    requires FirstGlobal(fn.overloads).Some?
    ensures HasMatchingGlobal(fn, None, assignable)
  {
    var k := FirstGlobal(fn.overloads).value;
    assert !fn.overloads[k].isMember && TypeMatches(None, fn.overloads[k].resultType, assignable);
  }

  /** The overload loop of `globalCompletionItems`, stopping at the first match. */
  method FindMatchingGlobal(fn: FunctionInfo, expected: Option<CelType>, assignable: (CelType, CelType) -> bool)
    returns (found: bool)
    ensures found == HasMatchingGlobal(fn, expected, assignable)
  {
    found := false;
    var i := 0;
    while i < |fn.overloads|
      invariant 0 <= i <= |fn.overloads|
      invariant !found
      invariant forall k :: 0 <= k < i ==>
                  fn.overloads[k].isMember || !TypeMatches(expected, fn.overloads[k].resultType, assignable)
    {
      if !fn.overloads[i].isMember && TypeMatches(expected, fn.overloads[i].resultType, assignable) {
        found := true;
        break;
      }
      i := i + 1;
    }
  }

  lemma GlobalItemsStep(fns: seq<FunctionInfo>, i: nat, expected: Option<CelType>, env: Env)
    requires i < |fns|
    ensures GlobalItems(fns[..i + 1], expected, env) == GlobalItems(fns[..i], expected, env) + GlobalItemOf(fns[i], expected, env)
  {
    assert fns[..i + 1][..i] == fns[..i];
  }

  /** `globalCompletionItems`. */
  method GlobalCompletionItems(env: Env, expected: Option<CelType>) returns (items: seq<CompletionItem>)
    ensures SortedPermutation(items, GlobalItems(env.functions, expected, env))
  {
    var unsorted := [];
    var i := 0;
    while i < |env.functions|
      invariant 0 <= i <= |env.functions|
      invariant unsorted == GlobalItems(env.functions[..i], expected, env)
    {
      var fn := env.functions[i];
      GlobalItemsStep(env.functions, i, expected, env);
      if !IsOperatorOrInternal(fn.name, env.reverse) {
        var found := FindMatchingGlobal(fn, expected, env.assignable);
        if found {
          var detail := GlobalFunctionDetail(fn);
          assert detail == GlobalDetail(fn);
          unsorted := unsorted + [GlobalItem(fn)];
        }
      }
      i := i + 1;
    }
    assert env.functions[..i] == env.functions;
    items := SortByLabel(unsorted);
  }

  /* macros */

  /** The names with later repeats dropped: what the `seen` map lets through. */
  function Dedup(names: seq<string>): seq<string>
  {
    if |names| == 0 then []
    else
      var init := Dedup(names[..|names| - 1]);
      var last := names[|names| - 1];
      if last in names[..|names| - 1] then init else init + [last]
  }

  /** Dropping repeats keeps every name and introduces none, and leaves no name twice. */
  lemma {:induction false} DedupKeeps(names: seq<string>)
    ensures forall x :: x in Dedup(names) <==> x in names
    ensures forall i, j :: 0 <= i < j < |Dedup(names)| ==> Dedup(names)[i] != Dedup(names)[j]
  {
    if |names| > 0 {
      var init := names[..|names| - 1];
      DedupKeeps(init);
      assert names == init + [names[|names| - 1]];
    }
  }

  function MacroItem(name: string): CompletionItem
  {
    CompletionItem(name, CompletionKindFunction, "macro", "", name + "($1)", true)
  }

  function MacroItems(names: seq<string>): (r: seq<CompletionItem>)
    ensures |r| == |names| && forall k :: 0 <= k < |names| ==> r[k] == MacroItem(names[k])
  {
    if |names| == 0 then [] else MacroItems(names[..|names| - 1]) + [MacroItem(names[|names| - 1])]
  }

  /** One more name: its item is added unless the name was seen before. */
  lemma MacroItemsStep(names: seq<string>, i: nat)
    requires i < |names|
    ensures forall x :: x in names[..i + 1] <==> x in names[..i] || x == names[i]
    ensures MacroItems(Dedup(names[..i + 1]))
         == if names[i] in names[..i] then MacroItems(Dedup(names[..i]))
            else MacroItems(Dedup(names[..i])) + [MacroItem(names[i])]
  {
    assert names[..i + 1][..i] == names[..i];
    assert names[..i + 1] == names[..i] + [names[i]];
    var d := Dedup(names[..i]);
    assert (d + [names[i]])[..|d|] == d;
  }

  /** `macroCompletionItems`: not narrowed by the expected type. */
  method MacroCompletionItems(env: Env) returns (items: seq<CompletionItem>)
    ensures SortedPermutation(items, MacroItems(Dedup(env.macros)))
  {
    var seen: set<string> := {};
    var unsorted := [];
    var i := 0;
    while i < |env.macros|
      invariant 0 <= i <= |env.macros|
      invariant forall x :: x in seen <==> x in env.macros[..i]
      invariant unsorted == MacroItems(Dedup(env.macros[..i]))
    {
      var name := env.macros[i];
      MacroItemsStep(env.macros, i);
      if name !in seen {
        seen := seen + {name};
        unsorted := unsorted + [MacroItem(name)];
      }
      i := i + 1;
    }
    assert env.macros[..i] == env.macros;
    items := SortByLabel(unsorted);
  }

  /** Every macro name is offered, and nothing else is. */
  lemma MacroItemsOffer(env: Env, items: seq<CompletionItem>, name: string)
    requires SortedPermutation(items, MacroItems(Dedup(env.macros)))
    ensures (exists k :: 0 <= k < |items| && items[k].labelText == name) <==> name in env.macros
  {
    var spec := MacroItems(Dedup(env.macros));
    DedupKeeps(env.macros);
    if name in env.macros {
      var d := Dedup(env.macros);
      var k :| 0 <= k < |d| && d[k] == name;
      assert spec[k] in multiset(items);
    }
    if exists k :: 0 <= k < |items| && items[k].labelText == name {
      var k :| 0 <= k < |items| && items[k].labelText == name;
      assert items[k] in multiset(spec);
    }
  }

  /** No macro name is offered twice. */
  lemma MacroLabelsDistinct(env: Env, items: seq<CompletionItem>)
    requires SortedPermutation(items, MacroItems(Dedup(env.macros)))
    ensures forall i, j :: 0 <= i < j < |items| ==> items[i].labelText != items[j].labelText
  {
    var spec := MacroItems(Dedup(env.macros));
    DedupKeeps(env.macros);
    forall i, j | 0 <= i < j < |items|
      ensures items[i].labelText != items[j].labelText
    {
      assert items[i] in multiset(spec) && items[j] in multiset(spec);
      if items[i].labelText == items[j].labelText {
        assert items[i] == items[j];
        MacroItemsCount(Dedup(env.macros), items[i]);
        TwoOccurrences(items, i, j);
        assert false;
      }
    }
  }

  /** An element found at two positions occurs at least twice. */
  lemma TwoOccurrences<T>(s: seq<T>, i: nat, j: nat)
    requires i < j < |s| && s[i] == s[j]
    ensures multiset(s)[s[i]] >= 2
  {
    assert s == s[..j] + s[j..];
    assert s[i] in multiset(s[..j]) && s[j] in multiset(s[j..]);
  }

  /** In the items of distinct names, an item occurs at most once. */
  lemma {:induction false} MacroItemsCount(names: seq<string>, item: CompletionItem)
    requires forall i, j :: 0 <= i < j < |names| ==> names[i] != names[j]
    ensures multiset(MacroItems(names))[item] <= 1
  {
    if |names| > 0 {
      var init := names[..|names| - 1];
      MacroItemsCount(init, item);
      assert MacroItems(names) == MacroItems(init) + [MacroItem(names[|names| - 1])];
    }
  }

  /* keywords */

  /** The keyword items: those that compile to a type the expected type accepts. */
  function KeywordItems(kws: seq<string>, expected: Option<CelType>, env: Env): (r: seq<CompletionItem>)
    ensures |r| <= |kws|
    ensures forall k :: 0 <= k < |r| ==> r[k].labelText in kws && r[k].kind == CompletionKindKeyword
  {
    if |kws| == 0 then []
    else
      var kw := kws[|kws| - 1];
      KeywordItems(kws[..|kws| - 1], expected, env)
        + match env.compile(kw)
          case None => []
          case Some(t) =>
            if TypeMatches(expected, t, env.assignable) then [CompletionItem(kw, CompletionKindKeyword, t.name, "", "", false)]
            else []
  }

  /** `keywordCompletionItems`: in keyword order, not sorted. */
  method KeywordCompletionItems(env: Env, expected: Option<CelType>) returns (items: seq<CompletionItem>)
    ensures items == KeywordItems(Keywords, expected, env)
  {
    items := [];
    var i := 0;
    while i < |Keywords|
      invariant 0 <= i <= |Keywords|
      invariant items == KeywordItems(Keywords[..i], expected, env)
    {
      var kw := Keywords[i];
      assert Keywords[..i + 1][..i] == Keywords[..i];
      var t := env.compile(kw);
      if t.Some? && TypeMatches(expected, t.value, env.assignable) {
        items := items + [CompletionItem(kw, CompletionKindKeyword, t.value.name, "", "", false)];
      }
      i := i + 1;
    }
    assert Keywords[..i] == Keywords;
  }

  /* ---------------- the operator before the cursor ---------------- */

  /** `binaryOperatorSymbols`: display symbol to internal name; the first function seen wins. */
  function SymbolsOf(fns: seq<FunctionInfo>, binaryReverse: map<string, string>): (m: map<string, string>)
    ensures forall d :: d in m ==> d != "" && m[d] in binaryReverse && binaryReverse[m[d]] == d
  {
    if |fns| == 0 then map[]
    else
      var m := SymbolsOf(fns[..|fns| - 1], binaryReverse);
      var name := fns[|fns| - 1].name;
      if name in binaryReverse && binaryReverse[name] != "" && binaryReverse[name] !in m
      then m[binaryReverse[name] := name]
      else m
  }

  /** Every symbol maps to one of the functions. */
  lemma {:induction false} SymbolsOfFromFunctions(fns: seq<FunctionInfo>, binaryReverse: map<string, string>)
    ensures forall d :: d in SymbolsOf(fns, binaryReverse) ==> exists j :: 0 <= j < |fns| && fns[j].name == SymbolsOf(fns, binaryReverse)[d]
  {
    if |fns| > 0 {
      var init := fns[..|fns| - 1];
      SymbolsOfFromFunctions(init, binaryReverse);
      forall d | d in SymbolsOf(fns, binaryReverse)
        ensures exists j :: 0 <= j < |fns| && fns[j].name == SymbolsOf(fns, binaryReverse)[d]
      {
        if d in SymbolsOf(init, binaryReverse) && SymbolsOf(fns, binaryReverse)[d] == SymbolsOf(init, binaryReverse)[d] {
          var j :| 0 <= j < |init| && init[j].name == SymbolsOf(init, binaryReverse)[d];
          assert fns[j] == init[j];
        } else {
          assert fns[|fns| - 1].name == SymbolsOf(fns, binaryReverse)[d];
        }
      }
    }
  }

  /**
   * Every binary operator among the functions has its symbol, and the first
   * function with that symbol is the one it maps to.
   */
  lemma {:induction false} SymbolsOfComplete(fns: seq<FunctionInfo>, binaryReverse: map<string, string>, i: nat)
    requires i < |fns| && fns[i].name in binaryReverse && binaryReverse[fns[i].name] != ""
    ensures binaryReverse[fns[i].name] in SymbolsOf(fns, binaryReverse)
    ensures (forall j :: 0 <= j < i ==> fns[j].name !in binaryReverse || binaryReverse[fns[j].name] != binaryReverse[fns[i].name])
            ==> SymbolsOf(fns, binaryReverse)[binaryReverse[fns[i].name]] == fns[i].name
  {
    var init := fns[..|fns| - 1];
    var d := binaryReverse[fns[i].name];
    if i < |fns| - 1 {
      assert init[i] == fns[i];
      SymbolsOfComplete(init, binaryReverse, i);
      if forall j :: 0 <= j < i ==> fns[j].name !in binaryReverse || binaryReverse[fns[j].name] != d {
        assert forall j :: 0 <= j < i ==> init[j] == fns[j];
      }
    } else if d in SymbolsOf(init, binaryReverse) {
      var m := SymbolsOf(init, binaryReverse);
      SymbolsOfFromFunctions(init, binaryReverse);
      var j :| 0 <= j < |init| && init[j].name == m[d];
      assert fns[j] == init[j];
    }
  }

  /** `binaryOperatorSymbols` as the loop over the functions. */
  method BinaryOperatorSymbols(env: Env) returns (result: map<string, string>)
    ensures result == SymbolsOf(env.functions, env.binaryReverse)
  {
    result := map[];
    var i := 0;
    while i < |env.functions|
      invariant 0 <= i <= |env.functions|
      invariant result == SymbolsOf(env.functions[..i], env.binaryReverse)
    {
      var name := env.functions[i].name;
      assert env.functions[..i + 1][..i] == env.functions[..i];
      if name in env.binaryReverse {
        var display := env.binaryReverse[name];
        if display != "" && display !in result {
          result := result[display := name];
        }
      }
      i := i + 1;
    }
    assert env.functions[..i] == env.functions;
  }

  /** `sym` ends the text before the cursor and leaves a non-blank left operand. */
  predicate OperatorAt(before: string, sym: string)
  {
    HasSuffix(before, sym) && TrimRightSet(before[..|before| - |sym|], LineSpace) != ""
  }

  /** Longer-or-equal, the order `cmp.Compare(len(b), len(a))` sorts the symbols by. */
  predicate LongerOrEqual(a: string, b: string)
  {
    |a| >= |b|
  }

  /** Two suffixes of the same text with the same length are the same string. */
  lemma SameLengthSuffixes(before: string, x: string, y: string)
    requires HasSuffix(before, x) && HasSuffix(before, y) && |x| == |y|
    ensures x == y
  {
  }

  ghost predicate IsLongestOperator(before: string, syms: set<string>, s: string)
  {
    s in syms && OperatorAt(before, s) && forall t :: t in syms && OperatorAt(before, t) ==> |t| <= |s|
  }

  lemma {:induction false} LongestExists(before: string, syms: set<string>, s: string)
    requires s in syms && OperatorAt(before, s)
    ensures exists m :: IsLongestOperator(before, syms, m)
    decreases |before| - |s|
  {
    if !IsLongestOperator(before, syms, s) {
      var t :| t in syms && OperatorAt(before, t) && |t| > |s|;
      LongestExists(before, syms, t);
    }
  }

  /** The longest symbol in `syms` that ends `before` with a non-blank left operand; it is unique. */
  ghost function LongestOperator(before: string, syms: set<string>): (r: Option<string>)
    ensures r.None? <==> forall t :: t in syms ==> !OperatorAt(before, t)
    ensures r.Some? ==> IsLongestOperator(before, syms, r.value)
    ensures forall s :: IsLongestOperator(before, syms, s) ==> r == Some(s)
  {
    if exists s :: s in syms && OperatorAt(before, s) then
      var s0 :| s0 in syms && OperatorAt(before, s0);
      LongestExists(before, syms, s0);
      var m :| IsLongestOperator(before, syms, m);
      assert forall s :: IsLongestOperator(before, syms, s) ==> s == m by {
        forall s | IsLongestOperator(before, syms, s)
          ensures s == m
        {
          SameLengthSuffixes(before, s, m);
        }
      }
      Some(m)
    else None
  }

  /** The symbol loop with `break`, over the symbols sorted longest first. */
  method FindOperator(before: string, syms: seq<string>, ghost keys: set<string>) returns (found: Option<string>)
    requires Sorting.SortedBy(syms, LongerOrEqual)
    requires forall s :: s in syms <==> s in keys
    ensures found == LongestOperator(before, keys)
  {
    var i := 0;
    while i < |syms|
      invariant 0 <= i <= |syms|
      invariant forall j :: 0 <= j < i ==> !OperatorAt(before, syms[j])
    {
      var sym := syms[i];
      if HasSuffix(before, sym) {
        var candidate := TrimRightSet(before[..|before| - |sym|], LineSpace);
        if candidate != "" {
          forall t | t in keys && OperatorAt(before, t)
            ensures |t| <= |sym|
          {
            var j :| 0 <= j < |syms| && syms[j] == t;
            assert j >= i;
            if j > i {
              assert LongerOrEqual(syms[i], syms[j]);
            }
          }
          assert IsLongestOperator(before, keys, sym);
          return Some(sym);
        }
      }
      i := i + 1;
    }
    forall t | t in keys
      ensures !OperatorAt(before, t)
    {
      var j :| 0 <= j < |syms| && syms[j] == t;
    }
    return None;
  }

  /** The keys of a Go map, in the order a `range` over it yields them. */
  method KeysOf(m: map<string, string>) returns (keys: seq<string>)
    ensures forall s :: s in keys <==> s in m
  {
    keys := [];
    var rest := m.Keys;
    while rest != {}
      invariant rest <= m.Keys
      invariant forall s :: s in m ==> (s in keys <==> s !in rest)
      invariant forall s :: s in keys ==> s in m
      decreases rest
    {
      var s :| s in rest;
      keys := keys + [s];
      rest := rest - {s};
    }
  }

  /** The function of the environment named `name` (`Functions()[name]`). */
  function FindFunction(fns: seq<FunctionInfo>, name: string): (r: Option<FunctionInfo>)
    ensures r.None? <==> forall i :: 0 <= i < |fns| ==> fns[i].name != name
    ensures r.Some? ==> r.value in fns && r.value.name == name
  {
    if |fns| == 0 then None
    else if fns[0].name == name then Some(fns[0])
    else FindFunction(fns[1..], name)
  }

  /** An overload whose first argument fits the left operand's type in either direction. */
  predicate AcceptsLeft(o: Overload, left: CelType, assignable: (CelType, CelType) -> bool)
  {
    |o.argTypes| == 2 && (assignable(o.argTypes[0], left) || assignable(left, o.argTypes[0]))
  }

  /** The right operand's type an overload expects; a type parameter stands for the left type. */
  function RightType(o: Overload, left: CelType): CelType
    requires |o.argTypes| == 2
  {
    if IsTypeParam(o.argTypes[1]) then left else o.argTypes[1]
  }

  /** The distinct right-operand types of the overloads accepting the left type, keyed by name. */
  function RightTypes(os: seq<Overload>, left: CelType, assignable: (CelType, CelType) -> bool): map<string, CelType>
  {
    if |os| == 0 then map[]
    else
      var o := os[|os| - 1];
      var m := RightTypes(os[..|os| - 1], left, assignable);
      if AcceptsLeft(o, left, assignable) then
        var right := RightType(o, left);
        m[right.name := right]
      else m
  }

  /**
   * The right types are exactly those of the overloads accepting the left
   * type, with type parameters replaced by the left type.
   */
  lemma {:induction false} RightTypesMeaning(os: seq<Overload>, left: CelType, assignable: (CelType, CelType) -> bool)
    ensures forall k :: k in RightTypes(os, left, assignable) ==>
              var t := RightTypes(os, left, assignable)[k];
              t.name == k && (t == left || !IsTypeParam(t))
    ensures forall k :: k in RightTypes(os, left, assignable) ==>
              exists j :: 0 <= j < |os| && AcceptsLeft(os[j], left, assignable)
                          && RightType(os[j], left) == RightTypes(os, left, assignable)[k]
    ensures forall j :: 0 <= j < |os| && AcceptsLeft(os[j], left, assignable) ==>
              RightType(os[j], left).name in RightTypes(os, left, assignable)
  {
    if |os| > 0 {
      var init := os[..|os| - 1];
      RightTypesMeaning(init, left, assignable);
      assert forall j :: 0 <= j < |init| ==> init[j] == os[j];
    }
  }

  /** The overload loop building `rightTypes`. */
  method CollectRightTypes(os: seq<Overload>, left: CelType, assignable: (CelType, CelType) -> bool)
    returns (rightTypes: map<string, CelType>)
    ensures rightTypes == RightTypes(os, left, assignable)
  {
    rightTypes := map[];
    var i := 0;
    while i < |os|
      invariant 0 <= i <= |os|
      invariant rightTypes == RightTypes(os[..i], left, assignable)
    {
      assert os[..i + 1][..i] == os[..i];
      var o := os[i];
      if |o.argTypes| == 2 && (assignable(o.argTypes[0], left) || assignable(left, o.argTypes[0])) {
        var right := o.argTypes[1];
        if IsTypeParam(right) {
          right := left;
        }
        rightTypes := rightTypes[right.name := right];
      }
      i := i + 1;
    }
    assert os[..i] == os;
  }

  /** The operator and left operand before the cursor: `celOp` and `leftExpr`. */
  ghost function OperatorContext(content: string, offset: int, env: Env): (r: Option<(string, string)>)
    requires offset <= |content|
  {
    if offset <= 0 then None
    else OperatorEnding(TrimRightSet(content[..offset], LineSpace), env)
  }

  /** The operator ending the trimmed text `before`, and the trimmed text left of it. */
  ghost function OperatorEnding(before: string, env: Env): (r: Option<(string, string)>)
  {
    if before == "" then None
    else
      var symbols := SymbolsOf(env.functions, env.binaryReverse);
      match LongestOperator(before, symbols.Keys)
      case None => None
      case Some(sym) =>
        if symbols[sym] == "" then None
        else Some((symbols[sym], TrimRightSet(before[..|before| - |sym|], LineSpace)))
  }

  /**
   * `expectedTypeAfterOperator`: the one type the right operand of the
   * operator before the cursor can have, when there is exactly one.
   */
  ghost function ExpectedType(content: string, offset: int, env: Env): Option<CelType>
    requires offset <= |content|
  {
    match OperatorContext(content, offset, env)
    case None => None
    case Some((op, leftExpr)) =>
      match env.compile(leftExpr)
      case None => None
      case Some(leftType) =>
        match FindFunction(env.functions, op)
        case None => None
        case Some(fn) =>
          var rights := RightTypes(fn.overloads, leftType, env.assignable);
          if |rights| == 1 then
            var k :| k in rights;
            Some(rights[k])
          else None
  }

  /**
   * The right operand is narrowed exactly when the operator's overloads that
   * accept the left operand's type leave one right type, and then to that
   * type, which is the left type or no type parameter.
   */
  lemma ExpectedTypeNarrowing(content: string, offset: int, env: Env)
    requires offset <= |content|
    ensures OperatorContext(content, offset, env).None? ==> ExpectedType(content, offset, env).None?
    ensures OperatorContext(content, offset, env).Some? ==>
      var (op, leftExpr) := OperatorContext(content, offset, env).value;
      && (env.compile(leftExpr).None? || FindFunction(env.functions, op).None? ==> ExpectedType(content, offset, env).None?)
      && (env.compile(leftExpr).Some? && FindFunction(env.functions, op).Some? ==>
            var left := env.compile(leftExpr).value;
            var rights := RightTypes(FindFunction(env.functions, op).value.overloads, left, env.assignable);
            var r := ExpectedType(content, offset, env);
            && (r.Some? <==> |rights| == 1)
            && (r.Some? ==> r.value in rights.Values && (r.value == left || !IsTypeParam(r.value))))
  {
    if OperatorContext(content, offset, env).Some? {
      var (op, leftExpr) := OperatorContext(content, offset, env).value;
      if env.compile(leftExpr).Some? && FindFunction(env.functions, op).Some? {
        RightTypesMeaning(FindFunction(env.functions, op).value.overloads, env.compile(leftExpr).value, env.assignable);
      }
    }
  }

  /** Text ending in a symbol that no function displays as, or with nothing left of it: no narrowing. */
  lemma NoOperatorNoExpectedType(content: string, offset: int, env: Env)
    requires 0 < offset <= |content|
    requires forall sym :: sym in SymbolsOf(env.functions, env.binaryReverse)
               ==> !OperatorAt(TrimRightSet(content[..offset], LineSpace), sym)
    ensures ExpectedType(content, offset, env).None?
  {
  }

  /** A set inside another is no larger. */
  lemma {:induction false} SubsetCard<T>(a: set<T>, b: set<T>)
    requires a <= b
    ensures |a| <= |b|
    decreases |a|
  {
    if a != {} {
      var x :| x in a;
      SubsetCard(a - {x}, b - {x});
    }
  }

  /** A map of size one has one key. */
  lemma OneKey<V>(m: map<string, V>, a: string, b: string)
    requires |m| == 1 && a in m && b in m
    ensures a == b
  {
    if a != b {
      assert |m.Keys| == 1;
      SubsetCard({a, b}, m.Keys);
    }
  }

  /** The symbols sorted longest first, and the search for the one ending `before`. */
  method FindLongestSymbol(before: string, env: Env) returns (opSymbols: map<string, string>, found: Option<string>)
    ensures opSymbols == SymbolsOf(env.functions, env.binaryReverse)
    ensures found == LongestOperator(before, opSymbols.Keys)
  {
    opSymbols := BinaryOperatorSymbols(env);
    var symbols := KeysOf(opSymbols);
    symbols := Sorting.Sorted(symbols, LongerOrEqual);
    found := FindOperator(before, symbols, opSymbols.Keys);
  }

  /**
   * What a step that slices the content gives: its value, or the run-time
   * panic of `content[:offset]` with an offset past the end.
   */
  datatype Outcome<T> = Returns(value: T) | SliceOutOfRange

  /**
   * The first half of `expectedTypeAfterOperator`: the operator ending the
   * trimmed text before the cursor, and its left operand. Only offsets at or
   * below 0 are turned away, so an offset past the end of the content
   * reaches the slice and panics.
   */
  method OperatorBeforeCursor(content: string, offset: int, env: Env) returns (ctx: Outcome<Option<(string, string)>>)
    ensures ctx.SliceOutOfRange? <==> offset > |content|
    ensures offset <= |content| ==> ctx == Returns(OperatorContext(content, offset, env))
  {
    if offset <= 0 {
      return Returns(None);
    }
    if offset > |content| {
      return SliceOutOfRange;
    }
    var found := OperatorInText(content, offset, env);
    return Returns(found);
  }

  /** The search of `expectedTypeAfterOperator` once the slice `content[:offset]` is taken. */
  method OperatorInText(content: string, offset: int, env: Env) returns (ctx: Option<(string, string)>)
    requires 0 < offset <= |content|
    ensures ctx == OperatorContext(content, offset, env)
  {
    var before := TrimRightSet(content[..offset], LineSpace);
    ctx := OperatorInTrimmed(before, env);
  }

  /** The lookup of the longest operator symbol ending `before`. */
  method OperatorInTrimmed(before: string, env: Env) returns (ctx: Option<(string, string)>)
    ensures ctx == OperatorEnding(before, env)
  {
    if before == "" {
      return None;
    }
    var opSymbols, found := FindLongestSymbol(before, env);
    var celOp, leftExpr := "", "";
    if found.Some? {
      celOp := opSymbols[found.value];
      leftExpr := TrimRightSet(before[..|before| - |found.value|], LineSpace);
    }
    if celOp == "" {
      return None;
    }
    return Some((celOp, leftExpr));
  }

  /** `expectedTypeAfterOperator`, with the source's steps. */
  method ExpectedTypeAfterOperator(content: string, offset: int, env: Env) returns (r: Outcome<Option<CelType>>)
    ensures r.SliceOutOfRange? <==> offset > |content|
    ensures offset <= |content| ==> r == Returns(ExpectedType(content, offset, env))
  {
    var ctx := OperatorBeforeCursor(content, offset, env);
    if ctx.SliceOutOfRange? {
      return SliceOutOfRange;
    }
    if ctx.value.None? {
      return Returns(None);
    }
    var (celOp, leftExpr) := ctx.value.value;
    var leftType := env.compile(leftExpr);
    if leftType.None? {
      return Returns(None);
    }
    var fn := FindFunction(env.functions, celOp);
    if fn.None? {
      return Returns(None);
    }
    var rightTypes := CollectRightTypes(fn.value.overloads, leftType.value, env.assignable);
    if |rightTypes| == 1 {
      var k :| k in rightTypes;
      forall k' | k' in rightTypes
        ensures k' == k
      {
        OneKey(rightTypes, k, k');
      }
      return Returns(Some(rightTypes[k]));
    }
    return Returns(None);
  }

  /* ---------------- the request ---------------- */

  /** The list outside a member access: global functions, then macros, then keywords. */
  ghost predicate GeneralList(items: seq<CompletionItem>, expected: Option<CelType>, env: Env)
  {
    var globals := GlobalItems(env.functions, expected, env);
    var macros := MacroItems(Dedup(env.macros));
    && |items| == |globals| + |macros| + |KeywordItems(Keywords, expected, env)|
    && SortedPermutation(items[..|globals|], globals)
    && SortedPermutation(items[|globals|..|globals| + |macros|], macros)
    && items[|globals| + |macros|..] == KeywordItems(Keywords, expected, env)
  }

  /** The three groups of `completion` outside a member access, in order. */
  method GeneralCompletionItems(expected: Option<CelType>, env: Env) returns (items: seq<CompletionItem>)
    ensures GeneralList(items, expected, env)
  {
    var globals := GlobalCompletionItems(env, expected);
    var macros := MacroCompletionItems(env);
    var keywords := KeywordCompletionItems(env, expected);
    assert |globals| == |GlobalItems(env.functions, expected, env)| by {
      assert |multiset(globals)| == |multiset(GlobalItems(env.functions, expected, env))|;
    }
    assert |macros| == |MacroItems(Dedup(env.macros))| by {
      assert |multiset(macros)| == |multiset(MacroItems(Dedup(env.macros)))|;
    }
    items := globals + macros + keywords;
    assert items[..|globals|] == globals;
    assert items[|globals|..|globals| + |macros|] == macros;
    assert items[|globals| + |macros|..] == keywords;
  }

  /**
   * `completion`. `content` is the document's text (none when the document
   * is not open) and `offset` the byte offset of the cursor. An offset past
   * the end of an open document is no dot context, and the expected-type
   * step then panics on its slice.
   */
  method Complete(content: Option<string>, offset: int, env: Env) returns (r: Outcome<CompletionList>)
    ensures r.SliceOutOfRange? <==> content.Some? && offset > |content.value|
    ensures r.Returns? ==> !r.value.isIncomplete
    ensures r.Returns? && content.Some? && IsDotContext(content.value, offset) ==>
      SortedPermutation(r.value.items, MemberItems(env.functions, ReceiverTypeAtDot(content.value, offset, env.compile), env))
    ensures r.Returns? && !(content.Some? && IsDotContext(content.value, offset)) ==>
      GeneralList(r.value.items, if content.Some? then ExpectedType(content.value, offset, env) else None, env)
  {
    if content.Some? && IsDotContext(content.value, offset) {
      var receiver := ReceiverTypeAtDot(content.value, offset, env.compile);
      var items := MemberCompletionItems(env, receiver);
      return Returns(CompletionList(false, items));
    }
    var expected := None;
    if content.Some? {
      var outcome := ExpectedTypeAfterOperator(content.value, offset, env);
      if outcome.SliceOutOfRange? {
        return SliceOutOfRange;
      }
      expected := outcome.value;
    }
    var items := GeneralCompletionItems(expected, env);
    return Returns(CompletionList(false, items));
  }
}
