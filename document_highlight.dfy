/**
 * Document highlights (internal/lsp/document_highlight.go): every
 * occurrence of the identifier under the cursor within its scope.
 */
module Highlight {
  import opened Text
  import opened Protocol
  import opened Syntax
  import opened Rename

  /** The highlights for an identifier: one per occurrence in its scope. */
  function HighlightsFor(e: Expr, info: SourceInfo, text: string, ident: Identifier): (hs: seq<DocumentHighlight>)
    requires WellFormed(info, text)
  {
    var scope := DetermineScope(ident.exprId, ident.name, e);
    Highlights(ScopedRanges(e, info, text, scope, ident.name, Highlighting))
  }

  /**
   * `computeDocumentHighlight`. `parsed` is the parser's result for
   * `content` (none on a parse error) and `target` the byte offset of the
   * requested position; no answer is an empty list.
   */
  method ComputeDocumentHighlight(content: string, parsed: Option<(Expr, SourceInfo)>, target: int)
    returns (hs: seq<DocumentHighlight>)
    requires parsed.Some? ==> WellFormed(parsed.value.1, content)
    ensures parsed.None? || target < 0 || target >= |content| ==> hs == []
    ensures parsed.Some? && 0 <= target < |content| ==>
      var (e, info) := parsed.value;
      match ResolveIdentifier(e, info, content, target)
      case None => hs == []
      case Some(ident) => hs == HighlightsFor(e, info, content, ident)
  {
    if parsed.None? {
      return [];
    }
    var (e, info) := parsed.value;
    if target < 0 || target >= |content| {
      return [];
    }
    var ident := Resolve(e, info, content, target);
    if ident.None? {
      return [];
    }
    var scope := DetermineScope(ident.value.exprId, ident.value.name, e);
    var ranges := CollectScoped(e, info, content, scope, ident.value.name, Highlighting);
    hs := Highlights(ranges);
  }
}
