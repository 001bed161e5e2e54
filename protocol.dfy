/**
 * The Language Server Protocol 3.17 structures the server produces.
 *
 * Positions are zero-based; `character` counts UTF-16 code units, the
 * protocol's default position encoding. The protocol carries them as
 * unsigned 32-bit integers; they are unbounded here.
 */
module Protocol {

  datatype Position = Position(line: nat, character: nat)

  datatype Range = Range(start: Position, end: Position)

  datatype TextEdit = TextEdit(range: Range, newText: string)

  datatype DocumentHighlight = DocumentHighlight(range: Range)

  datatype Location = Location(uri: string, range: Range)

  /** A hover: markdown contents and the range they describe. */
  datatype Hover = Hover(markdown: string, range: Range)

  /**
   * One signature: its label text, its documentation ("" when it has none) and
   * its parameters' labels.
   */
  datatype SignatureInformation = SignatureInformation(labelText: string, documentation: string, parameters: seq<string>)

  datatype SignatureHelp = SignatureHelp(signatures: seq<SignatureInformation>, activeSignature: nat, activeParameter: nat)

  /** `DiagnosticSeverity` values. */
  const SeverityError := 1
  const SeverityWarning := 2

  datatype Diagnostic = Diagnostic(range: Range, severity: nat, source: string, message: string)

  /** A full document diagnostic report; `kind` is always "full". */
  datatype FullDocumentDiagnosticReport = FullDocumentDiagnosticReport(kind: string, items: seq<Diagnostic>)

  /** `CompletionItemKind` values. */
  const CompletionKindMethod := 2
  const CompletionKindFunction := 3
  const CompletionKindKeyword := 14

  /**
   * A completion item: its documentation is "" when it has none, and
   * `snippet` says the insert text is in the snippet format (no format is
   * sent otherwise).
   */
  datatype CompletionItem = CompletionItem(labelText: string, kind: nat, detail: string, documentation: string,
                                           insertText: string, snippet: bool)

  datatype CompletionList = CompletionList(isIncomplete: bool, items: seq<CompletionItem>)
}
