/**
 * Find references (internal/lsp/references.go): the locations of every
 * occurrence of the identifier under the cursor within its scope. Function
 * names have no references.
 */
module References {
  import opened Text
  import opened Protocol
  import opened Syntax
  import opened Rename
  import Highlight

  /** The locations for an identifier: one per occurrence in its scope, all in the requested document. */
  function ReferencesFor(e: Expr, info: SourceInfo, text: string, ident: Identifier, uri: string): (ls: seq<Location>)
    requires WellFormed(info, text)
  {
    var scope := DetermineScope(ident.exprId, ident.name, e);
    Locations(uri, ScopedRanges(e, info, text, scope, ident.name, Referencing))
  }

  /** `computeReferences`, with the same parameters as `Highlight.ComputeDocumentHighlight`. */
  method ComputeReferences(uri: string, content: string, parsed: Option<(Expr, SourceInfo)>, target: int)
    returns (ls: seq<Location>)
    requires parsed.Some? ==> WellFormed(parsed.value.1, content)
    ensures parsed.None? || target < 0 || target >= |content| ==> ls == []
    ensures parsed.Some? && 0 <= target < |content| ==>
      var (e, info) := parsed.value;
      match ResolveIdentifier(e, info, content, target)
      case None => ls == []
      case Some(ident) =>
        ls == if ident.kind == FunctionKind then [] else ReferencesFor(e, info, content, ident, uri)
  {
    if parsed.None? {
      return [];
    }
    var (e, info) := parsed.value;
    if target < 0 || target >= |content| {
      return [];
    }
    var ident := Resolve(e, info, content, target);
    if ident.None? || ident.value.kind == FunctionKind {
      return [];
    }
    var scope := DetermineScope(ident.value.exprId, ident.value.name, e);
    var ranges := CollectScoped(e, info, content, scope, ident.value.name, Referencing);
    ls := Locations(uri, ranges);
  }

  /**
   * When every node has a recorded range, the references to a variable are
   * exactly its highlights, placed in the requested document.
   */
  lemma ReferencesAreHighlights(e: Expr, info: SourceInfo, text: string, ident: Identifier, uri: string)
    requires WellFormed(info, text) && AllRanged(e, info)
    ensures var ls := ReferencesFor(e, info, text, ident, uri);
            var hs := Highlight.HighlightsFor(e, info, text, ident);
            |ls| == |hs| && forall k :: 0 <= k < |ls| ==> ls[k].uri == uri && ls[k].range == hs[k].range
  {
    var scope := DetermineScope(ident.exprId, ident.name, e);
    FeaturesAgreeWhenAllRanged(e, info, text, scope, ident.name, Referencing, Highlighting);
  }
}
