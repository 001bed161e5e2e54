/**
 * Choosing the span under the cursor. Hover (internal/lsp/hover.go) and
 * signature help (internal/lsp/signature_help.go) share one rule: scan
 * the candidate byte spans in order and keep a covering span when none is
 * kept yet or it is strictly narrower than the kept one. The narrowest
 * covering span wins; among equally narrow ones, the first.
 */
module Narrowest {
  import opened Text

  /** A half-open byte span. */
  datatype Span = Span(start: int, end: int)

  predicate Covers(sp: Span, target: int)
  {
    sp.start <= target < sp.end
  }

  function Width(sp: Span): int
  {
    sp.end - sp.start
  }

  /**
   * Span `k` is the one chosen: it covers the target, none covering it is
   * narrower, and every earlier one covering it is wider.
   */
  predicate IsBest(ss: seq<Span>, target: int, k: nat)
  {
    && k < |ss| && Covers(ss[k], target)
    && (forall j :: 0 <= j < |ss| && Covers(ss[j], target) ==> Width(ss[k]) <= Width(ss[j]))
    && (forall j :: 0 <= j < k && Covers(ss[j], target) ==> Width(ss[k]) < Width(ss[j]))
  }

  /** The scan from span `i` on, with the choice so far. */
  function BestFrom(ss: seq<Span>, target: int, i: nat, best: Option<nat>): Option<nat>
    requires i <= |ss|
    requires best.Some? ==> best.value < |ss|
    decreases |ss| - i
  {
    if i == |ss| then best
    else if Covers(ss[i], target) && (best.None? || Width(ss[i]) < Width(ss[best.value])) then
      BestFrom(ss, target, i + 1, Some(i))
    else BestFrom(ss, target, i + 1, best)
  }

  function Best(ss: seq<Span>, target: int): Option<nat>
  {
    BestFrom(ss, target, 0, None)
  }

  /** What the scan has established after looking at `ss[..i]`. */
  predicate BestSoFar(ss: seq<Span>, target: int, i: nat, best: Option<nat>)
    requires i <= |ss|
  {
    && (best.None? <==> forall j :: 0 <= j < i ==> !Covers(ss[j], target))
    && (best.Some? ==>
          && best.value < i && Covers(ss[best.value], target)
          && (forall j :: 0 <= j < i && Covers(ss[j], target) ==> Width(ss[best.value]) <= Width(ss[j]))
          && (forall j :: 0 <= j < best.value && Covers(ss[j], target) ==> Width(ss[best.value]) < Width(ss[j])))
  }

  lemma {:induction false} BestFromIsBest(ss: seq<Span>, target: int, i: nat, best: Option<nat>)
    requires i <= |ss| && BestSoFar(ss, target, i, best)
    ensures var r := BestFrom(ss, target, i, best);
      && (r.None? <==> forall j :: 0 <= j < |ss| ==> !Covers(ss[j], target))
      && (r.Some? ==> IsBest(ss, target, r.value))
    decreases |ss| - i
  {
    if i < |ss| {
      if Covers(ss[i], target) && (best.None? || Width(ss[i]) < Width(ss[best.value])) {
        BestFromIsBest(ss, target, i + 1, Some(i));
      } else {
        BestFromIsBest(ss, target, i + 1, best);
      }
    }
  }

  /** At most one span is the best: the narrowest, the earliest among equals. */
  lemma BestIsUnique(ss: seq<Span>, target: int, k1: nat, k2: nat)
    requires IsBest(ss, target, k1) && IsBest(ss, target, k2)
    ensures k1 == k2
  {
  }

  /**
   * The scan finds the best span, the only one there is, and finds none
   * exactly when no span covers the target.
   */
  lemma BestIsBest(ss: seq<Span>, target: int)
    ensures Best(ss, target).None? <==> forall j :: 0 <= j < |ss| ==> !Covers(ss[j], target)
    ensures Best(ss, target).Some? ==> IsBest(ss, target, Best(ss, target).value)
    ensures forall k: nat :: IsBest(ss, target, k) ==> Best(ss, target) == Some(k)
  {
    BestFromIsBest(ss, target, 0, None);
    forall k: nat | IsBest(ss, target, k)
      ensures Best(ss, target) == Some(k)
    {
      assert Covers(ss[k], target);
      BestIsUnique(ss, target, Best(ss, target).value, k);
    }
  }

  /** The scanning loop. */
  method SelectBest(ss: seq<Span>, target: int) returns (best: Option<nat>)
    ensures best == Best(ss, target)
    ensures best.Some? ==> best.value < |ss|
  {
    best := None;
    var i := 0;
    while i < |ss|
      invariant 0 <= i <= |ss|
      invariant best.Some? ==> best.value < i
      invariant BestFrom(ss, target, i, best) == Best(ss, target)
    {
      if Covers(ss[i], target) && (best.None? || Width(ss[i]) < Width(ss[best.value])) {
        best := Some(i);
      }
      i := i + 1;
    }
  }

  /**
   * `x > 0 && y < 10`: with the spans of `&&` (bytes 6-8), `>` and `<`,
   * bytes 6 and 7 choose `&&`; the spaces at 5 and 8 choose nothing.
   */
  lemma OperatorBoundary()
    ensures var ss := [Span(6, 8), Span(2, 3), Span(11, 12)];
      Best(ss, 6) == Some(0) && Best(ss, 7) == Some(0) && Best(ss, 5) == None && Best(ss, 8) == None
  {
    var ss := [Span(6, 8), Span(2, 3), Span(11, 12)];
    BestIsBest(ss, 6);
    assert IsBest(ss, 6, 0);
    BestIsBest(ss, 7);
    assert IsBest(ss, 7, 0);
    BestIsBest(ss, 5);
    BestIsBest(ss, 8);
  }
}
