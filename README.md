# cells language server core, in Dafny

This project models the core of `cells`, a language server for the Common
Expression Language (CEL) written in Go. The model covers:

- the position arithmetic between rune offsets, byte offsets and Language
  Server Protocol (LSP 3.17) positions, whose columns count UTF-16 code units;
- the walks over the CEL syntax tree behind rename, document highlight,
  references, hover, semantic tokens and signature help, and the scope
  rules that decide which identifier nodes are one variable;
- the text algorithms of the feature handlers: comment splitting for
  formatting, message cleaning and line ends for diagnostics, signature
  string parsing, paren matching and comma counting, and completion
  filtering;
- the JSON-RPC transport: `Content-Length` framing (the Header Part of the
  LSP 3.17 base protocol), request and response rules (sections 4.1, 5 and
  5.1 of the JSON-RPC 2.0 Specification) and the table of pending calls;
- the server's store of open documents.

One Dafny module stands for one Go source file: `Cel` (cel.go), `JsonRpc`
(jsonrpc2.go), `Server` (lsp.go), `Syntax` (ast_walk.go), `Rename`,
`Highlight`, `References`, `SemanticTokens`, `Hovers`, `Signatures`,
`Diagnostics`, `Format` and `Completion`. A few modules have no Go file of
their own:

- `Text` holds the Go standard library string functions the source relies on
  (`strings.Index`, `TrimRight`, `Split`, `Join`, `strconv.Itoa`/`Atoi`).
- `Protocol` holds the LSP data types.
- `Sorting` is the in-place sort that stands for `slices.SortFunc`.
- `Narrowest` is the "smallest span containing the cursor" selection that
  hover and signature help share.
- `HighlightExamples` replays the highlight examples of the source's tests
  on the model.

Go strings are byte strings. A Dafny `string` stands for one here, with one
`char` per byte (its code, 0-255). UTF-8 decoding is modelled as Go's
`utf8.DecodeRuneInString` does it, so an invalid byte counts as one rune of
width 1. Writing a rune back, as `strings.Builder.WriteRune` does, is
modelled as `utf8.EncodeRune`: valid UTF-8 comes back unchanged and each
invalid byte comes back as U+FFFD (the bytes EF BF BD).

The parts that belong to cel-go are parameters of the operations, never
fixed functions:

- the parser and its `SourceInfo`, given as a syntax tree plus tables from
  node ids to rune ranges and start locations;
- the type checker's issues;
- `operators.FindReverse`;
- the type-conversion table;
- documentation metadata;
- `Compile` and `IsAssignableType`;
- the conversion from an LSP position to a byte offset.

The syntax tree is the datatype `Syntax.Expr`. Its constructors are
Unspecified, Ident, Call (with an optional receiver), List, Map, Struct,
Select, Literal and Comprehension.

Where the source works by changing state, the model does too:

- The document store is the class `Server.Documents`, with a `map` field.
- The pending-call table is the class `JsonRpc.Conn`.
- The semantic-token array is sorted in place.
- Apart from the loops named in the next item, every loop of the source that
  updates local state (a counter, a position, a builder, an accumulated
  slice) is a `while` loop proved against a function that says what it
  computes.
- Loops over a node's children (`SemanticTokens.WalkAll`, `Hovers.WalkAll`,
  `Signatures.ChildSignatures`) and over the macro calls or the macro list
  (`SemanticTokens.MacroRequests`, `Hovers.MacroCandidates`,
  `Hovers.FirstMacro`) are recursive functions over the sequence, in the same
  order.

## Model

| member | source | states |
|---|---|---|
| Cel.DecodeRune | internal/lsp/cel.go:47-49 | Decoding at a byte gives a Unicode scalar value and a width of 1 to 4 bytes. ASCII decodes as itself; a width of 1 is that byte or the replacement character. |
| Cel.RuneSize | internal/lsp/cel.go:47-49 | The width of the rune at a byte is 1 to 4 and stays inside the text; an ASCII byte is one rune. |
| Cel.DecodedWidth | internal/lsp/cel.go:82-83 | A decoded rune is 1 or 2 UTF-16 units, and 2 exactly when its UTF-8 form is 4 bytes. |
| Cel.EncodeRune | internal/lsp/signature_help.go:309-333 | `WriteRune` writes 1 to 4 bytes. An ASCII rune is its own byte; any other rune is written with bytes of 0x80 and above only, so never as a `(`, `)` or `,`. A value that is not a scalar becomes U+FFFD. |
| Cel.EncodeTwo | internal/lsp/signature_help.go:309-333 | A well-formed two-byte sequence is written back as the same two bytes. |
| Cel.EncodeThree | internal/lsp/signature_help.go:309-333 | A well-formed three-byte sequence (not overlong, not a surrogate) is written back as the same three bytes. |
| Cel.EncodeFour | internal/lsp/signature_help.go:309-333 | A well-formed four-byte sequence (not overlong, not past U+10FFFF) is written back as the same four bytes. |
| Cel.EncodeDecoded | internal/lsp/signature_help.go:309-333 | A rune decoded from anything but an invalid byte is written back as exactly the bytes it was decoded from. |
| Cel.ReencodeValid | internal/lsp/signature_help.go:309-333 | Ranging over valid UTF-8 and writing every rune back with `WriteRune` copies the text unchanged. |
| Cel.AsciiValid | internal/lsp/signature_help.go:309-333 | ASCII text is valid UTF-8, so the rewrite leaves it unchanged. |
| Cel.LineColStep | internal/lsp/cel.go:77-85 | One step of the scan always advances within the text. |
| Cel.ByteOffsetToLineCol | internal/lsp/cel.go:74-87 | The loop computes the (line, UTF-16 column) position of the byte offset, as `LineCol` defines it. |
| Cel.LineColClamps | internal/lsp/cel.go:74-87 | Offsets at or below 0 give (0, 0). Every offset at or past the end gives the position of the end. |
| Cel.LineColAscii | internal/lsp/cel.go:74-87 | On ASCII text the line is the number of `'\n'` before the offset and the column the number of bytes since the last one. `'\r'` adds to the column like any byte. |
| Cel.ScanStop | internal/lsp/cel.go:76-85 | The scan stops at the end of the text or at the first rune start at or past the offset, which is less than 4 bytes past the offset. |
| Cel.ContinuationBytes | internal/lsp/cel.go:78 | Every byte of a rune after its first is 0x80 or above, so a newline byte is never inside a rune. |
| Cel.NewlineRune | internal/lsp/cel.go:78-80 | A decoded rune is `'\n'` exactly when its first byte is `'\n'`, and then it is one byte long. |
| Cel.DecodeInPrefix | internal/lsp/cel.go:78 | A rune that ends within a prefix of the text decodes the same in that prefix. |
| Cel.NewlineStep | internal/lsp/cel.go:79-81 | A newline moves the scan to the next line at column 0. |
| Cel.RuneStep | internal/lsp/cel.go:82-84 | Any other rune adds its UTF-16 length, 1 or 2, to the column. |
| Cel.LineColStepValue | internal/lsp/cel.go:78-84 | A `'\n'` byte moves to the next line at column 0 and one byte on. Any other rune keeps the line, adds its UTF-16 length to the column and moves past its bytes. |
| Cel.StepResult | internal/lsp/cel.go:77-85 | One step of the scan keeps the stop. From the byte it reaches, the newline count and the column after the last newline come out the same as from the byte it left. |
| Cel.ScanAdvance | internal/lsp/cel.go:77-85 | If the scan's result holds from the next rune on, it holds from the rune before it. |
| Cel.LineColFromAll | internal/lsp/cel.go:74-87 | From any rune start the scan adds the number of newlines up to where it stops to the line, and ends at the UTF-16 length of the text after the last newline, or after where it began when there is none. |
| Cel.LineColAnyText | internal/lsp/cel.go:74-87 | On any text, including invalid UTF-8, the line is the number of `'\n'` bytes before the stop and the column the UTF-16 length of the runes between the last of them and the stop. The stop is the offset clamped to [0, len] and moved to the end of the rune it falls in. |
| Cel.ScanFromStart | internal/lsp/cel.go:74-87 | From the start of the text, the scan's result is the newline count and the UTF-16 length after the last newline. |
| Cel.SingleLineAscii | internal/lsp/cel.go:74-87 | On one ASCII line, byte offset k is at (0, k). |
| Cel.RuneCountAscii | internal/lsp/cel.go:47-49 | On ASCII text there are as many runes as bytes. |
| Cel.EmojiTakesTwoColumns | internal/lsp/document_highlight_test.go:72-80 | In `x + "🎉" + x` the second `x` (byte 13) is at column 11: the emoji counts as two UTF-16 units. |
| Cel.RuneToByteFrom | internal/lsp/cel.go:44-51 | The scan continued from any byte ends within [that byte, len]. |
| Cel.RuneCountFrom | internal/lsp/cel.go:47-49 | There are never more runes after a byte than bytes. |
| Cel.RuneToByte | internal/lsp/cel.go:44-51 | The byte offset of a rune offset is within [0, len(s)]. |
| Cel.RuneOffsetToByteOffset | internal/lsp/cel.go:44-51 | The loop computes `RuneToByte`. |
| Cel.RuneToByteMonotone | internal/lsp/cel.go:44-51 | The conversion is monotone in the rune offset. |
| Cel.RuneToBytePastEnd | internal/lsp/cel.go:44-51 | Every rune offset at or past the rune count gives len(s). |
| Cel.RuneToByteFromCount | internal/lsp/cel.go:44-51 | Advancing k runes leaves k fewer runes after the byte reached. |
| Cel.RuneToByteFromSplit | internal/lsp/cel.go:44-51 | Scanning to rune b is scanning to rune a and then from there to b. |
| Cel.RuneToByteAscii | internal/lsp/cel.go:44-51 | On ASCII text the rune offset is the byte offset, clamped to [0, len]. |
| Cel.ByteRangeWithinText | internal/lsp/cel.go:54-58 | A rune range inside the text gives a byte range inside the text. |
| Cel.OffsetRangeToByteRange | internal/lsp/cel.go:54-58 | The start is a byte offset inside the text, 0 for a start at or before 0. The byte width is the rune width. |
| Cel.ByteRangeExactOnAscii | internal/lsp/cel.go:54-58 | The byte width equals the rune width, so the end is the exact byte of rune `stop` when the span is ASCII. |
| Cel.FindMethodNameAfterDot | internal/lsp/cel.go:61-70 | The result is (-1, -1) exactly when no `"." + name` occurs at or after `from`. Otherwise it is the name's byte range in the first such occurrence. |
| Cel.DotNameAt | internal/lsp/cel.go:61-70 | At a match the dot comes first and the name right after it. |
| Cel.CelOperatorSymbol | internal/lsp/cel.go:32-40 | The conditional operator maps to `?`. Any other name has a symbol exactly when the reverse table gives a non-empty one, and then it is that one. |
| Cel.IsCelKeyword | internal/lsp/cel.go:13-19 | Only `true`, `false` and `null`. Each is a lower-case word of 4 or 5 letters, so it has the shape of an identifier, and none is a macro name. |
| Cel.IsCelMacroFunction | internal/lsp/cel.go:22-29 | Only the six macro names. Each is a lower-case word of 3 to 10 bytes, possibly with `_`. |
| Syntax.StartOf | internal/lsp/semantic_tokens.go:189-190 | An id without a recorded start location gets a line of 0 or less, which every caller treats as "unknown". |
| Syntax.ByteRangeOfNode | internal/lsp/ast_walk.go:51-52 | A node's recorded range becomes a byte range inside the text. |
| Syntax.AfterDotSpan | internal/lsp/semantic_tokens.go:225-234 | A member call's name is found as the first `".name"` at or after its receiver's start, and only when that start is known. When none is found, no occurrence exists. |
| Syntax.NameBeforeSpan | internal/lsp/semantic_tokens.go:235-244 | A global call's name is taken just before its recorded start, and only when those bytes are the name. |
| Syntax.Children | internal/lsp/ast_walk.go:114-156 | The sub-expressions every walk recurses into, in walk order, are smaller than the node. |
| Syntax.Preorder | internal/lsp/ast_walk.go:114-156 | The preorder of a tree starts with its root. |
| Syntax.MatchingIdents | internal/lsp/ast_walk.go:42-57 | The kept nodes are exactly those that are identifiers of that name with a recorded range. |
| Syntax.RangesOf | internal/lsp/ast_walk.go:51-56 | One range per node, converted from its recorded rune range. |
| Syntax.OccurrencesUnfold | internal/lsp/ast_walk.go:37-60 | A node's occurrences are its own, then those of each child in turn. |
| Syntax.AppendOwnOccurrence | internal/lsp/ast_walk.go:42-57 | The head of `collectOccurrencesInExpr` appends the node's own range when it is an occurrence. |
| Syntax.CollectOccurrences | internal/lsp/ast_walk.go:37-60 | Appends exactly the occurrences of the name in the tree, in preorder, to what was collected before. |
| Syntax.CollectInChildren | internal/lsp/ast_walk.go:114-156 | Appends the children's occurrences, child by child. |
| Syntax.Edits | internal/lsp/ast_walk.go:16-20 | One edit per range, each carrying the new name. |
| Syntax.Highlights | internal/lsp/ast_walk.go:23-27 | One highlight per range. |
| Syntax.Locations | internal/lsp/ast_walk.go:30-34 | One location per range, each in the requested document. |
| Syntax.OccurrencesAreIdents | internal/lsp/ast_walk.go:42-57 | Each reported range belongs to an identifier node of that name. Call names and loop-variable names are never reported. |
| Syntax.EveryIdentReported | internal/lsp/ast_walk.go:42-57 | Every identifier node of that name with a recorded range is reported. |
| Syntax.FirstRefusal | internal/lsp/ast_walk.go:254-343 | The index of the first visit the visitor refuses. Every earlier visit is accepted. |
| Syntax.WalkIdentifiers | internal/lsp/ast_walk.go:250-343 | The walk's outcome is that of the visitor over the visits in preorder: identifiers and the loop variables of comprehensions. |
| Syntax.WalkChildren | internal/lsp/ast_walk.go:254-343 | The walk over a node's children is the visitor's outcome over their visits. |
| Syntax.WalkChildrenStep | internal/lsp/ast_walk.go:254-343 | A refusal in the first child ends the walk; otherwise the rest are walked. |
| Syntax.WalkCompletes | internal/lsp/ast_walk.go:250-343 | The walk completes exactly when the visitor accepts every visit, and then it has made all of them. |
| Syntax.WalkStopsAtRefusal | internal/lsp/ast_walk.go:254-343 | After the first refusal nothing more is visited: the last visit made is the refused one, and every visit before it was accepted. |
| Rename.ValidateNewName | internal/lsp/rename.go:913-929 | A name is accepted exactly when it is an identifier and not a CEL keyword. The empty name is refused as empty; a keyword is refused as a keyword. |
| Rename.ValidAsciiIdentifier | internal/lsp/rename.go:932-955 | An ASCII name is valid exactly when it matches `[A-Za-z_][A-Za-z0-9_]*`. |
| Rename.RestIsIdentifierAscii | internal/lsp/rename.go:941-948 | On ASCII text the rune loop is a byte loop over identifier characters. |
| Rename.ContainsIdentifier | internal/lsp/rename.go:570-630 | True exactly when the subtree contains the identifier node with that name and id. |
| Rename.FirstMatch | internal/lsp/rename.go:454-553 | The first node answering a query in walk order; none exactly when no node answers. |
| Rename.FirstMatchIndex | internal/lsp/rename.go:454-553 | The index of that first node; no earlier node answers. |
| Rename.FirstMatchAppend | internal/lsp/rename.go:454-553 | Searching a concatenation searches the first part, then the second. |
| Rename.FirstMatchUnfold | internal/lsp/rename.go:454-553 | A walk with early exit checks the node before its children. |
| Rename.FindFirst | internal/lsp/rename.go:454-553 | The early-exit walk finds the first preorder match. |
| Rename.FindLoopVarScope | internal/lsp/rename.go:454-553 | The scope is that of the first preorder node binding the name for that identifier: a comprehension (macro name "unknown") or a loop macro call. There is none when no node does. |
| Rename.DetermineScope | internal/lsp/rename.go:442-451 | Top level exactly when no loop-variable scope is found; otherwise that scope. |
| Rename.FindComprehensionCall | internal/lsp/rename.go:660-742 | The result is a call with that id in the tree. When no comprehension has the id, it is the first such call in preorder. |
| Rename.FindComprehensionExpr | internal/lsp/rename.go:745-821 | The first comprehension with that id, in preorder. |
| Rename.FunctionNameCandidate | internal/lsp/rename.go:238-254 | A call whose name, found in its text, covers the target yields a function-kind candidate for that call. |
| Rename.MacroVariableCandidate | internal/lsp/rename.go:256-282 | Only a macro call whose first argument is an identifier yields a loop-variable candidate, named after that identifier. |
| Rename.IterVarCandidate | internal/lsp/rename.go:286-309 | A comprehension yields at most a candidate for its own loop variable. |
| Rename.NodeCandidates | internal/lsp/rename.go:227-309 | Candidates carry the node's id. A function candidate names its call's function. An identifier is a candidate exactly when its byte range covers the target. |
| Rename.Candidates | internal/lsp/rename.go:312-353 | The walk's candidates come from the node or from its children. |
| Rename.CandidatesFromTree | internal/lsp/rename.go:227-353 | Every candidate is the own candidate of some node of the tree. |
| Rename.Refine | internal/lsp/rename.go:365-436 | The refined id is unchanged or is the id of a comprehension that refines to the name. |
| Rename.FindIdentifierAtPosition | internal/lsp/rename.go:194-439 | There is none exactly when there are no candidates. Otherwise it is the last candidate, with its id possibly refined. |
| Rename.FindIdentifierByName | internal/lsp/rename.go:958-1027 | The first identifier node with that name whose range covers the target, as a top-level identifier. There is none exactly when no node matches. |
| Rename.WordStart | internal/lsp/rename.go:103-121 | The start of the run of identifier bytes ending at k. |
| Rename.WordEnd | internal/lsp/rename.go:103-121 | The end of the run of identifier bytes starting at k. |
| Rename.WordAround | internal/lsp/rename.go:103-121 | The two scans of the fallback find `WordStart` and `WordEnd`. |
| Rename.ResolveIdentifier | internal/lsp/rename.go:100-123 | The identifier at the position when there is one. Otherwise, when the cursor touches a word of identifier bytes, it is exactly what the lookup by that name finds, and nothing when there is no such word. |
| Rename.Resolve | internal/lsp/rename.go:100-123 | The lookup with its loops computes `ResolveIdentifier`. |
| Rename.FirstWordFrom | internal/lsp/rename.go:866-893 | The first whole-word occurrence of the name at or after the start; none exactly when there is no such occurrence. |
| Rename.ScanDeclaration | internal/lsp/rename.go:866-893 | The scan loop with its `break` computes `FirstWordFrom`. |
| Rename.CallFormDeclaration | internal/lsp/rename.go:824-854 | At most one declaration, and only for a first argument that is that identifier. It is its recorded range; without a range, only highlighting falls back to the first whole-word occurrence in the file. |
| Rename.ScanStart | internal/lsp/rename.go:857-910 | The scan starts at the end of the iteration range. Without a range, renaming starts at 0 and the other requests do not scan. |
| Rename.ExprFormDeclaration | internal/lsp/rename.go:857-910 | At most one declaration, and only when the comprehension's loop variable is the name. |
| Rename.CollectIn | internal/lsp/rename.go:633-657 | Appends the occurrences of each expression in turn. |
| Rename.OccurrencesInStep | internal/lsp/rename.go:633-657 | One more expression appends its occurrences. |
| Rename.SpanAt | internal/lsp/document_highlight.go:127-148 | Converts a byte span to a protocol range position by position. |
| Rename.DeclareInCallForm | internal/lsp/rename.go:824-854 | The declaration step of the macro-call collector computes `CallFormDeclaration`. |
| Rename.CollectInCallForm | internal/lsp/rename.go:824-854 | The macro-call collector: no ranges below two arguments; else the declaration, then the occurrences in the other arguments. |
| Rename.DeclareInExprForm | internal/lsp/rename.go:857-910 | The declaration step of the comprehension collector computes `ExprFormDeclaration`. |
| Rename.CollectInExprForm | internal/lsp/rename.go:857-910 | The comprehension collector: the declaration, then the occurrences in the five sub-expressions in order. |
| Rename.CollectScoped | internal/lsp/rename.go:124-131 | The scoped collection of the three requests computes `ScopedRanges`. |
| Rename.TopLevelIsWholeTree | internal/lsp/document_highlight.go:97-100 | A top-level name is collected from the whole tree, the same for every request. |
| Rename.FeaturesAgreeWhenAllRanged | internal/lsp/ast_walk.go:37-111 | When every node has a range, rename, highlight and references collect the same ranges in the same order, in every scope. |
| Rename.CallFormAgrees | internal/lsp/references.go:110-140 | A macro call whose first argument has a range is collected alike by every request. |
| Rename.ExprFormAgrees | internal/lsp/references.go:143-197 | A comprehension whose iteration range has a range is collected alike by every request. |
| Rename.RenameEdits | internal/lsp/rename.go:124-131 | Every edit carries the new name. |
| Rename.ComputeRename | internal/lsp/rename.go:79-143 | An invalid name is refused, with its reason, before anything else. Otherwise there is no rename on a parse failure, an offset outside the text, no identifier or no edits. A rename has the scope's edits, and there is at least one. |
| Rename.ComputePrepareRename | internal/lsp/rename.go:145-185 | A range exactly when the position has a top-level identifier with a recorded range. Function names give none. The range is that identifier's. |
| Highlight.ComputeDocumentHighlight | internal/lsp/document_highlight.go:30-76 | Nothing on a parse failure, an offset outside the text or no identifier. Otherwise the highlights of the identifier's scope. |
| References.ComputeReferences | internal/lsp/references.go:29-80 | Nothing on a parse failure, an offset outside the text, no identifier or a function name. Otherwise the locations of the identifier's scope. |
| References.ReferencesAreHighlights | internal/lsp/references.go:83-197 | When every node has a range, the references are the highlights, in the same order, each in the requested document. |
| HighlightExamples.TopLevelExample | internal/lsp/document_highlight_test.go:36-46 | In `x + x + x` the scope is the whole expression, and the highlights are columns 0-1, 4-5 and 8-9. |
| HighlightExamples.SumOfThreeScope | internal/lsp/rename.go:442-451 | In `x + x + x` no node binds `x`, so the scope is top level. |
| HighlightExamples.MapExample | internal/lsp/document_highlight_test.go:50-57 | In `[1, 2, 3].map(x, x * 2)` the scope is the comprehension, and the highlights are 14-15 (the declaration found by the scan) and 17-18. |
| HighlightExamples.MapDeclaration | internal/lsp/rename.go:866-893 | In the map example, the scan from the end of `[1, 2, 3]` finds the declaration at columns 14-15. |
| HighlightExamples.MapRanges | internal/lsp/document_highlight.go:159-212 | The map comprehension's ranges are its declaration followed by the use in its body. |
| HighlightExamples.ComprehensionScope | internal/lsp/rename.go:454-553 | A comprehension is the scope of its own loop variable; the call search finds nothing for its id. |
| HighlightExamples.HighlightsFromScope | internal/lsp/document_highlight.go:79-103 | The highlights of an identifier are those of its scope's ranges. |
| HighlightExamples.SingleLineRange | internal/lsp/ast_walk.go:51-56 | On one ASCII line a recorded range becomes the same columns on line 0. |
| SemanticTokens.IdentType | internal/lsp/semantic_tokens.go:165-180 | Keyword exactly for true/false/null. Otherwise a variable exactly when bound by an enclosing comprehension, else a property. |
| SemanticTokens.LiteralType | internal/lsp/semantic_tokens.go:251-267 | Null and bool are keywords, string and bytes are strings, int, uint and double are numbers. |
| SemanticTokens.CallType | internal/lsp/semantic_tokens.go:214-224 | Macro first, then type conversion (the only case with the default-library modifier), then method for members, else function. |
| SemanticTokens.CallNameRequest | internal/lsp/semantic_tokens.go:205-246 | Operators are requested by their recorded range. Other calls are requested by their name found in the text, after the dot for members and before the call for globals. |
| SemanticTokens.RangeRequest | internal/lsp/semantic_tokens.go:177-180 | A request exactly when the node has a recorded range, at its byte range. |
| SemanticTokens.Bind | internal/lsp/semantic_tokens.go:292-306 | The bound names are the outer ones plus the comprehension's non-empty loop and accumulator variables. |
| SemanticTokens.FreeTreeHasNoVariables | internal/lsp/semantic_tokens.go:165-180 | Outside every comprehension no identifier is a variable. |
| SemanticTokens.RangeAndInitAreUnbound | internal/lsp/semantic_tokens.go:286-310 | At the top level, a comprehension whose range and initialiser hold no comprehension of their own walks them first, and none of their tokens is a variable. |
| SemanticTokens.RangeAndInitInOuterScope | internal/lsp/semantic_tokens.go:286-310 | In any scope, a comprehension's range and initialiser are walked first and in the scope outside it: renaming the comprehension's own variables changes none of their tokens. |
| SemanticTokens.WalkAllAnyParent | internal/lsp/semantic_tokens.go:286-310 | The walk of a list of children does not depend on their parent. |
| SemanticTokens.MacroRequest | internal/lsp/semantic_tokens.go:314-354 | A macro token only for a macro call with a known start, and it covers exactly the macro's name in the text. |
| SemanticTokens.MacroRequests | internal/lsp/semantic_tokens.go:314-354 | At most one macro token per macro call, each of the macro type. |
| SemanticTokens.Utf16Length | internal/lsp/semantic_tokens.go:92-96 | The rune loop computes the text's UTF-16 length. |
| Cel.Utf16LenFrom | internal/lsp/semantic_tokens.go:92-96 | The UTF-16 length of a suffix is at most its byte length. |
| Cel.Utf16LenAscii | internal/lsp/semantic_tokens.go:92-96 | On ASCII text the UTF-16 length is the byte count. |
| SemanticTokens.AccentedStringLength | internal/lsp/semantic_tokens_test.go:373-381 | `"héllo"` is 7 UTF-16 units long. |
| SemanticTokens.CjkStringLength | internal/lsp/semantic_tokens_test.go:373-381 | `"日本語"` is 5 UTF-16 units long. |
| SemanticTokens.TokenOf | internal/lsp/semantic_tokens.go:86-104 | A token exactly when 0 <= start < end <= len. Its position is the start's (line, column), its length the UTF-16 length of its text, and its type and modifiers are kept. |
| SemanticTokens.CollectToken | internal/lsp/semantic_tokens.go:86-104 | One call of the closure computes `TokenOf`. |
| SemanticTokens.CollectTokens | internal/lsp/semantic_tokens.go:86-119 | The tokens are those of every request in turn. |
| SemanticTokens.Collected | internal/lsp/semantic_tokens.go:86-119 | At most one token per request. |
| SemanticTokens.CollectedFit | internal/lsp/semantic_tokens.go:90-103 | Below 4 GiB of text, every collected line, column and length fits in 32 bits. |
| SemanticTokens.AtOrBeforeOrder | internal/lsp/semantic_tokens.go:122-127 | The (line, column) order is total and transitive. |
| SemanticTokens.SortByPosition | internal/lsp/semantic_tokens.go:122-127 | The tokens end sorted by (line, column) and are a permutation of the old ones. |
| SemanticTokens.Sub32 | internal/lsp/semantic_tokens.go:135-139 | `uint32` subtraction stays below 2^32. |
| SemanticTokens.Add32 | internal/lsp/semantic_tokens_test.go:20-45 | The decoder's `uint32` addition stays below 2^32. |
| SemanticTokens.Encode | internal/lsp/semantic_tokens.go:130-142 | Five integers per token. |
| SemanticTokens.EncodeFrom | internal/lsp/semantic_tokens.go:130-142 | Five integers per token. |
| SemanticTokens.DecodeFrom | internal/lsp/semantic_tokens_test.go:20-45 | The reference decoder yields one token per five integers. |
| SemanticTokens.DecodeEncode | internal/lsp/semantic_tokens.go:130-142 | Decoding the encoding gives back every token, in order, when all fields fit 32 bits. |
| SemanticTokens.DecodeEncodeStep | internal/lsp/semantic_tokens.go:134-142 | The first token decodes from its five numbers, given that the rest does. |
| SemanticTokens.SortedEncodingHasNoWrap | internal/lsp/semantic_tokens.go:134-142 | On sorted tokens no `uint32` subtraction wraps: each delta is the true line difference, and the column difference on the same line. |
| SemanticTokens.EncodeTokens | internal/lsp/semantic_tokens.go:130-142 | The loop over `prevLine`/`prevCol` computes `Encode`. |
| SemanticTokens.ComputeSemanticTokens | internal/lsp/semantic_tokens.go:79-147 | Nothing for empty content or a parse failure. Nothing exactly when no token is collected, never an empty array. Otherwise five integers per token, decoding to the collected tokens sorted by position. |
| Hovers.KeywordHover | internal/lsp/hover.go:280-291 | Non-empty exactly for true, false and null, and it names the keyword. |
| Hovers.HeaderName | internal/lsp/hover.go:343-352 | The signature if set, else the override if set, else the doc's name. |
| Hovers.FormatDoc | internal/lsp/hover.go:339-396 | No doc renders as "". Otherwise the header comes first, then an Overloads section when a child has a signature, else an Examples section, else nothing. |
| Hovers.OverloadLines | internal/lsp/hover.go:369-380 | Without signed children there are no overload lines. |
| Hovers.ExampleLines | internal/lsp/hover.go:381-393 | Without described children there are no examples. |
| Hovers.FindSignedChild | internal/lsp/hover.go:362-368 | The loop finds the first signed child, or none. |
| Hovers.RenderHead | internal/lsp/hover.go:339-360 | The builder writes the header and description, as `DocHead` says. |
| Hovers.AppendOverloads | internal/lsp/hover.go:369-380 | The loop appends exactly `OverloadLines`. |
| Hovers.AppendExamples | internal/lsp/hover.go:381-393 | The loop appends exactly `ExampleLines`. |
| Hovers.RenderDoc | internal/lsp/hover.go:339-396 | The builder computes `FormatDoc`. |
| Hovers.FunctionHover | internal/lsp/hover.go:295-317 | Nothing for an undeclared function. An operator gets an operator header with its symbol, a type conversion a type header; a function without doc gets a one-line fallback. |
| Hovers.FirstMacro | internal/lsp/hover.go:321-334 | The first macro declared under that name. |
| Hovers.MacroHover | internal/lsp/hover.go:321-334 | The first such macro's rendered doc, else a one-line fallback. |
| Hovers.RangeCandidate | internal/lsp/hover.go:122-126 | A candidate exactly when the node has a recorded range. |
| Hovers.LiteralCandidate | internal/lsp/hover.go:171-185 | Only booleans and null have a candidate; null's is the keyword hover. |
| Hovers.CallCandidate | internal/lsp/hover.go:133-170 | A call's own candidate, for operators and non-macro functions only, carries the function's hover. |
| Hovers.WalkFromDocs | internal/lsp/hover.go:104-228 | Every candidate the walk finds documents a keyword or a declared function. |
| Hovers.MacroCandidate | internal/lsp/hover.go:231-275 | Only a macro call gets a macro candidate, with a non-empty macro hover. |
| Hovers.MacroCandidates | internal/lsp/hover.go:231-275 | At most one macro candidate per macro call. |
| Hovers.Kept | internal/lsp/hover.go:60-68 | The kept candidates are exactly those with 0 <= start < end <= len and non-empty markdown. |
| Hovers.SpansOf | internal/lsp/hover.go:74-82 | The candidates' spans, in order. |
| Hovers.ComputeHover | internal/lsp/hover.go:42-101 | Nothing on a parse failure or an offset outside the text. Otherwise nothing exactly when no kept candidate covers the target, else the best one. |
| Narrowest.BestIsBest | internal/lsp/hover.go:74-86 | The scan finds the best span: it contains the target, it is strictly narrowest, and ties go to the earliest. It finds none exactly when no span covers the target. It is the only best. |
| Narrowest.BestFromIsBest | internal/lsp/hover.go:74-82 | Continuing the scan from any best-so-far gives the best span over all the spans, or none exactly when none covers the target. |
| Narrowest.BestIsUnique | internal/lsp/signature_help.go:116-123 | At most one span is the best. |
| Narrowest.SelectBest | internal/lsp/hover.go:74-82 | The loop computes `Best`. |
| Narrowest.OperatorBoundary | internal/lsp/hover_test.go:305-319 | In `x > 0 && y < 10`, bytes 6 and 7 select `&&`, and bytes 5 and 8 select nothing. |
| Signatures.ParenEnd | internal/lsp/signature_help.go:103-113 | The end is past the open parenthesis and inside the text. |
| Signatures.ParenEndFrom | internal/lsp/signature_help.go:103-113 | The depth scan from any position ends inside the text, at or after that position. |
| Signatures.ParenEndMatches | internal/lsp/signature_help.go:103-113 | The span is open at every inner position. It ends just past the balancing `)`, or at the end of the text if none balances. |
| Signatures.MatchParen | internal/lsp/signature_help.go:103-113 | The depth loop computes `ParenEnd`. |
| Signatures.CallSpan | internal/lsp/signature_help.go:91-113 | A call with a range has its span from the first `(` at or after its start to the matching end. |
| Signatures.Sites | internal/lsp/signature_help.go:84-162 | The walk visits calls, then their arguments, then their receiver; each site holds a valid span. |
| Signatures.SiteSpans | internal/lsp/signature_help.go:116-123 | The sites' spans, in order. |
| Signatures.CountCommas | internal/lsp/signature_help.go:182-193 | The loop counts the depth-0 commas between `(` and the cursor. |
| Signatures.ClampAsWritten | internal/lsp/signature_help.go:195-205 | The clamp as written on a 32-bit counter. |
| Signatures.TopLevelCommas | internal/lsp/signature_help.go:182-193 | There are never more depth-0 commas than bytes. |
| Signatures.Clamp | internal/lsp/signature_help.go:195-205 | No arguments give 0. Otherwise the count, capped at the last argument. |
| Signatures.ClampAgrees | internal/lsp/signature_help.go:195-205 | The two clamps differ only for no arguments and no commas, where the as-written one gives 2^32 - 1. |
| Signatures.EmptyCallParamIndex | internal/lsp/signature_help.go:170-206 | For `f()` with the cursor inside, the code gives 2^32 - 1 and the corrected version gives 0. |
| Signatures.CountParametersBeforeCursor | internal/lsp/signature_help.go:170-206 | With the corrected clamp the index is 0 without arguments and below the argument count otherwise. |
| Signatures.MatchesCallType | internal/lsp/signature_help.go:273-287 | True without `(`. Otherwise true exactly when a dot before the first `(` matches the call being a member call. |
| Signatures.FirstParen | internal/lsp/signature_help.go:273-287 | The index found is the first `(`, and a dot lies before it exactly when the signature is a member form. |
| Signatures.Segments | internal/lsp/signature_help.go:308-340 | One more segment than there are top-level commas. |
| Signatures.JoinSegments | internal/lsp/signature_help.go:308-340 | Putting the commas back gives the text again. |
| Signatures.CommaStep | internal/lsp/signature_help.go:317-328 | A comma at depth 0 closes the segment being built and starts an empty one. |
| Signatures.OtherStep | internal/lsp/signature_help.go:311-331 | Any other byte extends the segment being built and moves the depth by one for a parenthesis. |
| Signatures.PlainStep | internal/lsp/signature_help.go:332-333 | Bytes with no comma or parenthesis extend the segment being built and keep the depth. |
| Signatures.EncodedPlain | internal/lsp/signature_help.go:332-333 | The bytes `WriteRune` writes for a rune other than `(`, `)` and `,` contain none of them. |
| Signatures.SplitRune | internal/lsp/signature_help.go:310-334 | One rune through the `switch` keeps the loop state equal to that of the bytes written so far. |
| Signatures.SplitNext | internal/lsp/signature_help.go:309-335 | Decoding one rune moves past it and keeps the loop state equal to that of the bytes written so far. |
| Signatures.ParamName | internal/lsp/signature_help.go:352-359 | A blank declaration is kept. Otherwise the result is the last word, a non-empty, space-free suffix of the right-trimmed declaration. |
| Signatures.LastSpace | internal/lsp/signature_help.go:355-358 | The index of the last white-space byte, or -1; nothing after it is white space. |
| Signatures.SegmentName | internal/lsp/signature_help.go:320-337 | A non-blank segment's label is the last word of the trimmed segment: non-empty and without white space. |
| Signatures.Names | internal/lsp/signature_help.go:320-337 | At most one label per segment. |
| Signatures.NamesAreWords | internal/lsp/signature_help.go:291-349 | Every label is a non-empty word without white space. |
| Signatures.Parameters | internal/lsp/signature_help.go:291-349 | Every parameter label is a non-empty word without white space. |
| Signatures.Labels | internal/lsp/signature_help.go:299-349 | The labels of the text between the parentheses, taken after the rune-by-rune rewrite, are non-empty words without white space. |
| Signatures.ParametersBetween | internal/lsp/signature_help.go:291-349 | With a `(` before the last `)`, the labels come from the non-blank top-level segments of the text between them, as the loop writes that text back rune by rune (an invalid byte becomes U+FFFD). Nothing when that text is empty. |
| Signatures.ParametersOfValid | internal/lsp/signature_help.go:291-349 | When the text between the parentheses is valid UTF-8, the labels come from that text unchanged. |
| Signatures.InvalidByteInLabel | internal/lsp/signature_help.go:309-349 | In `f(x<0xFF>)` the stray byte comes out of the one label as the three bytes of U+FFFD. |
| Signatures.SplitParameters | internal/lsp/signature_help.go:304-348 | The rune loop yields the labels of the non-blank top-level segments of the text as `WriteRune` writes it back. |
| Signatures.ExtractParameters | internal/lsp/signature_help.go:291-349 | The method computes `Parameters`. |
| Signatures.SignatureOf | internal/lsp/signature_help.go:226-236 | A signature carries the doc's signature, description and parsed parameters. |
| Signatures.ChildSignatures | internal/lsp/signature_help.go:243-262 | Only signed children that suit the call are listed. |
| Signatures.ChildSignaturesComplete | internal/lsp/signature_help.go:243-262 | Every signed child that suits the call is listed. |
| Signatures.SignaturesFor | internal/lsp/signature_help.go:212-268 | Never empty. With no doc it is the fallback. A suitable top-level signature is returned alone. Every entry suits the call or is the fallback. |
| Signatures.CollectOverloads | internal/lsp/signature_help.go:243-262 | The overload loop computes `ChildSignatures`. |
| Signatures.GenerateSignatures | internal/lsp/signature_help.go:212-268 | The method computes `SignaturesFor`. |
| Signatures.ComputeSignatureHelp | internal/lsp/signature_help.go:31-74 | Nothing on a parse failure, an offset outside the text or no call around the cursor. Otherwise help exactly when the innermost call's function is known, with active signature 0 and the corrected parameter index. |
| Diagnostics.FirstLineLength | internal/lsp/diagnostics.go:134-137 | The length of the first line is at most the text's. |
| Diagnostics.LineLengthIsPiece | internal/lsp/diagnostics.go:128-147 | Line n's length is that of the n-th piece of the text split at `'\n'`, or 0 past the last. |
| Diagnostics.ScanToNewline | internal/lsp/diagnostics.go:134-137 | The inner loop stops at the end of the first line from i. |
| Diagnostics.EndOfLine | internal/lsp/diagnostics.go:128-147 | The end of line n is on line n, at its byte length, or at character 0 when the line is past the text. |
| Diagnostics.QuoteIndex | internal/lsp/diagnostics.go:112-125 | The index of the first quote, or the end. |
| Diagnostics.CleanHead | internal/lsp/diagnostics.go:112-125 | One replacement step consumes at least one byte and emits some text. A byte other than a quote is emitted as itself. |
| Diagnostics.CleanStep | internal/lsp/diagnostics.go:112-125 | Cleaning emits the head step, then cleans the rest. |
| Diagnostics.CleanReplacesQuoted | internal/lsp/diagnostics.go:117-123 | A quoted name with a non-empty display symbol becomes that symbol, still quoted. |
| Diagnostics.CleanKeepsQuoted | internal/lsp/diagnostics.go:117-123 | A quoted text without a display symbol is kept. |
| Diagnostics.CleanKeepsByte | internal/lsp/diagnostics.go:112-125 | A byte that starts no quoted text is kept. |
| Diagnostics.CleanMessage | internal/lsp/diagnostics.go:112-125 | Only the empty message cleans to the empty text. A message without quotes is unchanged. |
| Diagnostics.CleanWithoutOperators | internal/lsp/diagnostics.go:112-125 | With no display symbols every message is unchanged. |
| Diagnostics.CleanQuotedOperator | internal/lsp/diagnostics_test.go:177 | A quoted operator name followed by plain text becomes its display symbol, and the rest stays. |
| Diagnostics.DiagnosticOf | internal/lsp/diagnostics.go:83-107 | One line, starting at line - 1 and the column, each clamped at 0, and ending at the end of that line. Carries the severity, the source "cells" and the cleaned message. |
| Diagnostics.IssuesToDiagnostics | internal/lsp/diagnostics.go:80-109 | One diagnostic per issue, in order. |
| Diagnostics.ComputeDiagnostics | internal/lsp/diagnostics.go:58-77 | Blank content gives an empty list. Parse issues give errors. Only when parsing succeeds do check issues give warnings. |
| Diagnostics.DiagnosticFull | internal/lsp/diagnostics.go:26-55 | A full report. An unknown or blank document has no items. Otherwise item k is `DiagnosticOf` the k-th parse error, as an error, or when parsing succeeded of the k-th check issue, as a warning: range, severity, source and cleaned message. |
| Format.CommentFrom | internal/lsp/format.go:185-248 | A comment start found is a `//` at or after the scan position. |
| Format.StripComment | internal/lsp/format.go:185-248 | No comment leaves the line as it is. There is a comment exactly when the quote-aware scan finds `//`. |
| Format.StripCommentShape | internal/lsp/format.go:185-248 | Either (line, "") or (the code before some `//` without trailing blanks, a comment starting with `//` taken from there). |
| Format.UnquotedCommentIsFirstSlashes | internal/lsp/format.go:185-248 | Without quotes the comment is the first `//`. |
| Format.StringSkipped | internal/lsp/format.go:195-238 | Inside a single-, double- or triple-quoted string everything up to the closing quote is skipped: a backslash pair is an escape whatever its second byte, an escaped quote does not close the string, and `//` inside is no comment. The scan resumes outside strings after the closing quote. |
| Format.PlainStringBody | internal/lsp/format.go:195-238 | Bytes that are neither a backslash nor the closing quote form a string body. |
| Format.QuotedUrlExample | internal/lsp/format.go:185-248 | `f("a//b") // note` splits into `f("a//b")` and `// note`. |
| Format.EscapedQuoteCommentAt | internal/lsp/format.go:195-238 | In `f("a\"//b") // c` the comment starts at byte 12: the escaped quote keeps the string open. |
| Format.TripleQuotedCommentAt | internal/lsp/format.go:195-238 | In `"""x"//y""" // c` the comment starts at byte 12: a lone quote does not end a triple-quoted string. |
| Format.StripInlineComment | internal/lsp/format.go:185-248 | The byte loop with four quote flags computes `StripComment`. |
| Format.LeadEnd | internal/lsp/format.go:107-116 | Lines before the result are comment or blank, and the result holds code or is the end. |
| Format.TrailStart | internal/lsp/format.go:118-127 | Lines from the result on are comment or blank. The line before it holds code, unless the result is the lead end. |
| Format.CleanBody | internal/lsp/format.go:154-162 | Stripping the last line's comment keeps the number of lines. |
| Format.CleanBodyWithoutComment | internal/lsp/format.go:154-162 | A body whose last line has no comment is left as it is. |
| Format.SkipLeading | internal/lsp/format.go:107-116 | The loop computes `LeadEnd`. |
| Format.SkipTrailing | internal/lsp/format.go:118-127 | The loop computes `TrailStart`. |
| Format.CheckBody | internal/lsp/format.go:132-148 | The loop accepts exactly the bodies without comment lines and without inline comments before the last line. |
| Format.LineWithoutSlashes | internal/lsp/format.go:132-148 | A line without `//` is no comment line and has no inline comment. |
| Format.StripLastLine | internal/lsp/format.go:154-162 | Overwrites the last line in place, giving `CleanBody`. |
| Format.AppendTrailingLines | internal/lsp/format.go:166-177 | The trailing lines are appended after a `\n` unless they are all blank. |
| Format.AssembleParts | internal/lsp/format.go:150-179 | The parts of an accepted split are assembled as `Assemble` says. |
| Format.AssembleFields | internal/lsp/format.go:150-179 | Leading is the lines before the body, the body is its lines joined, and trailing is a `\n` and the rest, or nothing at the end. |
| Format.SplitCommentsLoops | internal/lsp/format.go:104-180 | The loops compute `SplitComments`. |
| Format.SplitComments | internal/lsp/format.go:104-180 | A refused document gives three empty parts. |
| Format.SplitRefusal | internal/lsp/format.go:134-148 | A refusal has all three parts empty, and a refused document contains `//`. |
| Format.NoSlashesAccepted | internal/lsp/format.go:104-180 | A document without `//` is always split. |
| Format.SplitRoundTrip | internal/lsp/format.go:104-180 | When no comment moves, the parts put back together are the document. |
| Format.AssembleRoundTrip | internal/lsp/format.go:150-179 | When no comment moves, leading, body and trailing put back together are the joined lines. |
| Format.SplitLinesRoundTrip | internal/lsp/format.go:104-180 | When no comment moves, an accepted split of the lines puts back together as the joined lines. |
| Format.FormatCel | internal/lsp/format.go:61-94 | An unsplittable document is returned unchanged. There is an error exactly when the body does not print. A formatted result starts with leading, printed body and trailing, and keeps a final `\n`. |
| Format.DocumentEndIsLastLine | internal/lsp/format.go:37-42 | The edit's end is the end of the last line: the line count is the number of `\n`, and the column the bytes after the last one. |
| Format.Formatting | internal/lsp/format.go:12-51 | No edit for an unknown document, a formatting error or an unchanged text. Otherwise one edit from (0, 0) to the document's end, holding the formatted text. |
| Format.FormattedIsFixedPoint | internal/lsp/format.go:32-34 | A document that the printer leaves as it is gets no edit. |
| Completion.ReceiverTypeAtDot | internal/lsp/completion.go:70-87 | Nothing for an offset outside (0, len]. A type is always that of the non-blank, right-trimmed text before the dot. |
| Completion.IsDotContext | internal/lsp/completion.go:62-65 | A dot context exactly when the offset is inside the content and the text before it ends with `.`. |
| Completion.BlankReceiverHasNoType | internal/lsp/completion.go:76-80 | Only white space before the dot gives no type. |
| Completion.SignatureShape | internal/lsp/completion.go:359-373 | The detail ends in `) -> result`. A member overload with arguments starts with its receiver type and a dot; otherwise with the name. |
| Completion.TypeNames | internal/lsp/completion.go:359-373 | One name per type, each that type's name. |
| Completion.FirstGlobal | internal/lsp/completion.go:347-355 | The first overload that is not a member overload. |
| Completion.GlobalFunctionDetail | internal/lsp/completion.go:347-355 | The loop returns the first global overload's signature, or "". |
| Completion.LabelOrder | internal/lsp/completion.go:239-241 | Label order is total and transitive. |
| Completion.SortByLabel | internal/lsp/completion.go:239-241 | The items end sorted by label and are a permutation of the input. |
| Completion.SortedDistinctLabels | internal/lsp/completion.go:279-281 | Among sorted items, two with the same label enclose only that label. |
| Completion.MatchingOverloadsKeeps | internal/lsp/completion.go:212-224 | The filter keeps exactly the member overloads whose receiver accepts the receiver type, or all member overloads when there is no type. |
| Completion.MemberItemsNeverInternal | internal/lsp/completion.go:205-243 | Member items are method snippets, never operators or internal names. |
| Completion.MemberItemOfOffer | internal/lsp/completion.go:205-238 | One function's member item offers a name exactly when that function qualifies under that name. |
| Completion.MemberItemsOffer | internal/lsp/completion.go:205-243 | A function is offered after a dot exactly when it is not internal and has a matching member overload. |
| Completion.MemberItemsComplete | internal/lsp/completion.go:205-243 | Every qualifying function is offered. |
| Completion.MemberItemsSound | internal/lsp/completion.go:205-243 | Every offered name comes from a qualifying function. |
| Completion.CollectMatchingOverloads | internal/lsp/completion.go:212-224 | The loop computes `MatchingOverloads`. |
| Completion.MemberCompletionItems | internal/lsp/completion.go:205-243 | The items are the member items, sorted by label. |
| Completion.GlobalItemsNeverInternal | internal/lsp/completion.go:248-283 | Global items are function snippets with a non-empty detail, never operators or internal names. |
| Completion.GlobalItemOfOffer | internal/lsp/completion.go:248-278 | One function's global item offers a name exactly when that function qualifies under that name. |
| Completion.GlobalItemsOffer | internal/lsp/completion.go:248-283 | A function is offered exactly when it is not internal and some global overload's result matches the expected type. |
| Completion.GlobalItemsComplete | internal/lsp/completion.go:248-283 | Every qualifying function is offered. |
| Completion.GlobalItemsSound | internal/lsp/completion.go:248-283 | Every offered name comes from a qualifying function. |
| Completion.NoExpectedTypeOffersAllGlobals | internal/lsp/completion.go:195-200 | With no expected type, every type matches. |
| Completion.FindMatchingGlobal | internal/lsp/completion.go:255-264 | The loop with `break` decides whether a global overload matches. |
| Completion.GlobalCompletionItems | internal/lsp/completion.go:248-283 | The items are the global items, sorted by label. |
| Completion.DedupKeeps | internal/lsp/completion.go:289-296 | Dropping repeats keeps every name, adds none and leaves no name twice. |
| Completion.MacroItems | internal/lsp/completion.go:297-306 | One macro item per name, in order, each being that name's macro item. |
| Completion.MacroItemsCount | internal/lsp/completion.go:288-311 | Distinct names give every item at most once. |
| Completion.MacroItemsStep | internal/lsp/completion.go:291-306 | A name seen before adds no item; otherwise it adds its item. |
| Completion.MacroCompletionItems | internal/lsp/completion.go:288-311 | One item per distinct macro name, sorted by label, whatever the expected type. |
| Completion.MacroItemsOffer | internal/lsp/completion.go:288-311 | A name is offered exactly when it is a macro. |
| Completion.MacroLabelsDistinct | internal/lsp/completion_test.go:545-557 | No macro name is offered twice. |
| Completion.KeywordItems | internal/lsp/completion.go:317-335 | Keyword items are only true, false and null, of keyword kind. |
| Completion.KeywordCompletionItems | internal/lsp/completion.go:317-335 | The loop computes the keyword items in keyword order. |
| Completion.SymbolsOf | internal/lsp/completion.go:92-104 | Each symbol is non-empty and is the display form of the name it maps to. |
| Completion.SymbolsOfFromFunctions | internal/lsp/completion.go:92-104 | Every symbol maps to one of the functions. |
| Completion.SymbolsOfComplete | internal/lsp/completion.go:92-104 | Every binary operator among the functions has its symbol, mapped to the first function with that symbol. |
| Completion.BinaryOperatorSymbols | internal/lsp/completion.go:92-104 | The loop computes `SymbolsOf`. |
| Completion.LongestOperator | internal/lsp/completion.go:122-147 | Nothing exactly when no symbol ends the text with a non-blank left operand. Otherwise the longest symbol that does, and it is unique. |
| Completion.FindOperator | internal/lsp/completion.go:132-144 | Over the symbols sorted longest first, the loop with `break` finds `LongestOperator`. |
| Completion.FindLongestSymbol | internal/lsp/completion.go:120-144 | The symbol table and the search give the longest operator. |
| Completion.FindFunction | internal/lsp/completion.go:157-160 | The declared function with that name, or nothing exactly when there is none. |
| Completion.KeysOf | internal/lsp/completion.go:120-130 | The keys collected are exactly the map's keys. |
| Completion.RightTypesMeaning | internal/lsp/completion.go:162-176 | The right types are exactly those of the two-argument overloads that accept the left type, keyed by name, with type parameters replaced by the left type. |
| Completion.CollectRightTypes | internal/lsp/completion.go:162-176 | The loop computes `RightTypes`. |
| Completion.ExpectedTypeNarrowing | internal/lsp/completion.go:109-185 | Narrowing happens exactly when one distinct right type remains. Never without an operator, a compiled left operand or the operator's function. |
| Completion.NoOperatorNoExpectedType | internal/lsp/completion.go:145-147 | Text ending in no known operator gives no expected type. |
| Completion.OperatorBeforeCursor | internal/lsp/completion.go:110-147 | An offset past the end of the content panics on the slice, and only such an offset. Otherwise the method computes the operator and left operand of `OperatorContext`. |
| Completion.ExpectedTypeAfterOperator | internal/lsp/completion.go:109-185 | An offset past the end of the content panics, and only such an offset. Otherwise the method computes `ExpectedType`. |
| Completion.GeneralCompletionItems | internal/lsp/completion.go:48-51 | Globals, then macros, then keywords, each as their own operation gives them. |
| Completion.Complete | internal/lsp/completion.go:22-56 | The request panics exactly when the document is open and the offset is past its end. Otherwise the list is never incomplete. In a dot context it holds only the member items, sorted. Otherwise it holds the general items for the expected type, with no type for an unknown document. |
| Sorting.InsertInto | internal/lsp/semantic_tokens.go:122-127 | Inserting one element keeps the prefix sorted and the contents a permutation. |
| Sorting.SortInPlace | internal/lsp/semantic_tokens.go:122-127 | The array ends sorted by the order and is a permutation of its old contents. |
| Sorting.Sorted | internal/lsp/completion.go:239-241 | The copy is sorted and a permutation of the input. |
| Server.RouteOf | internal/lsp/lsp.go:66-94 | Method not found exactly for unlisted methods, with code -32601 and a message naming the method. The three document notifications route to their handlers. |
| Server.ChangedContent | internal/lsp/lsp.go:150-165 | No changes keep the content. A recognised first change gives its text, whatever follows it. |
| Server.OnlyFirstChangeCounts | internal/lsp/lsp.go:152-165 | Changes after the first are ignored. |
| Server.Documents.constructor | internal/lsp/lsp.go:55-64 | The store starts empty. |
| Server.Documents.DidOpen | internal/lsp/lsp.go:118-136 | Inserts or replaces the document's entry with the given version and text, and publishes it. |
| Server.Documents.DidChange | internal/lsp/lsp.go:138-171 | An unknown document is an error and changes nothing. Otherwise the version is set unconditionally, the content follows `ChangedContent` and nothing else changes. |
| Server.Documents.DidClose | internal/lsp/lsp.go:173-184 | Removes only that document; an unknown one is a no-op. |
| Server.Documents.Lookup | internal/lsp/lsp.go:186-200 | A file exactly when the document is open, and it is that document's entry. |
| Server.OpenThenClose | internal/lsp/lsp.go:118-184 | Opening and then closing leaves no trace of the document. |
| Server.OpenThenChange | internal/lsp/lsp.go:118-171 | A change after an open acts on the opened text. |
| JsonRpc.ErrorText | internal/jsonrpc2/jsonrpc2.go:40-42 | The text starts with the prefix and ends with the message. |
| JsonRpc.ErrorTextCode | internal/jsonrpc2/jsonrpc2.go:40-42 | The code, an `int64`, printed in the text reads back as the code. |
| Text.ParseInt | internal/jsonrpc2/jsonrpc2.go:382-385 | `strconv.Atoi` gives a value only for an optional sign and at least one digit, and only when the value fits in a 64-bit `int`. |
| Text.ParseFormatInt | internal/jsonrpc2/jsonrpc2.go:310 | A 64-bit integer printed in decimal parses back to itself. The decimal form of any larger integer is rejected. |
| JsonRpc.DecodeId | internal/jsonrpc2/jsonrpc2.go:72-84 | A number fits 64 bits, a string decodes as a string ID, and other values are rejected. |
| JsonRpc.DecodeRequest | internal/jsonrpc2/jsonrpc2.go:102-125 | A notification exactly when there is no `"id"`. The method and params are kept. Decoding fails exactly on a non-string method or a bad id. |
| JsonRpc.DecodeResponse | internal/jsonrpc2/jsonrpc2.go:136-140 | A missing id is ID 0, and an error object becomes the response's error. |
| JsonRpc.Classify | internal/jsonrpc2/jsonrpc2.go:336-345 | A request exactly when `"method"` is a string. A response exactly when it is absent or null. |
| JsonRpc.Respond | internal/jsonrpc2/jsonrpc2.go:155-178 | Notifications get no response. A response carries the request's ID and exactly one of result and error. A JSON-RPC error is kept; any other error or a marshal failure becomes -32603 with its text. |
| JsonRpc.HeaderLine | internal/jsonrpc2/jsonrpc2.go:372-389 | One header line moves forward in the input; the blank line ends the headers with the current length. |
| JsonRpc.LineStep | internal/jsonrpc2/jsonrpc2.go:377-388 | Only the empty line ends the headers. Any other line is skipped unless it is a Content-Length header, whose value sets the length when `strconv.Atoi` accepts it and ends the loop with an error otherwise. |
| JsonRpc.ReadHeaders | internal/jsonrpc2/jsonrpc2.go:372-389 | Finished headers end inside the input, after where reading started. |
| JsonRpc.ReadHeadersStop | internal/jsonrpc2/jsonrpc2.go:378-380 | A line that ends the headers gives their result. |
| JsonRpc.ReadHeadersNext | internal/jsonrpc2/jsonrpc2.go:372-389 | Any other line moves forward and reading continues from the next line. |
| JsonRpc.ReadFrameSpec | internal/jsonrpc2/jsonrpc2.go:370-398 | The corrected reader never panics. A frame's body is non-empty and followed by the rest of the input. |
| JsonRpc.ReadFrameAsWritten | internal/jsonrpc2/jsonrpc2.go:370-398 | The reader as written panics exactly when the headers end with a negative length. A frame's body is non-empty and followed by the rest of the input. |
| JsonRpc.ReadFrameCorrection | internal/jsonrpc2/jsonrpc2.go:390-393 | The corrected reader differs from the code only where the code panics. |
| JsonRpc.NegativeContentLengthPanics | internal/jsonrpc2/jsonrpc2.go:381-393 | Every negative Content-Length that fits in an `int` reaches `make` and panics as written. The corrected reader rejects it. |
| JsonRpc.ReadsLine | internal/jsonrpc2/jsonrpc2.go:373-377 | A line ended by `\r\n` is read and trimmed in one pass. |
| JsonRpc.BlankLineStep | internal/jsonrpc2/jsonrpc2.go:378-380 | The empty line ends the headers. |
| JsonRpc.OtherLineStep | internal/jsonrpc2/jsonrpc2.go:388 | Other headers are ignored. |
| JsonRpc.ContentLengthStep | internal/jsonrpc2/jsonrpc2.go:381-387 | A Content-Length whose value `strconv.Atoi` accepts, so one within the 64-bit range, sets the length. |
| JsonRpc.ContentLengthRejected | internal/jsonrpc2/jsonrpc2.go:381-385 | A Content-Length whose value `strconv.Atoi` rejects ends the header loop at once with "bad Content-Length". |
| JsonRpc.OversizedContentLengthRejected | internal/jsonrpc2/jsonrpc2.go:381-385 | A first Content-Length beyond the 64-bit range is a read error for both readers, whatever headers follow it. |
| JsonRpc.ZeroContentLengthRejected | internal/jsonrpc2/jsonrpc2.go:390-392 | A `Content-Length: 0` header is "missing Content-Length" for both readers, whatever follows it. |
| JsonRpc.NoHeadersRejected | internal/jsonrpc2/jsonrpc2.go:378-392 | A blank first line, so no header at all, is "missing Content-Length" for both readers. |
| JsonRpc.OnlyOtherHeaderRejected | internal/jsonrpc2/jsonrpc2.go:381-392 | Headers with no Content-Length leave the length 0, so both readers report "missing Content-Length". |
| JsonRpc.ShortBodyRejected | internal/jsonrpc2/jsonrpc2.go:393-396 | A body shorter than the announced length is the `io.ReadFull` error for both readers. |
| JsonRpc.UnterminatedLine | internal/jsonrpc2/jsonrpc2.go:373-376 | When no `\n` is left in the input, the header loop ends with the read error. |
| JsonRpc.EndOfInputRejected | internal/jsonrpc2/jsonrpc2.go:373-376 | Input with no `\n` at all is a read error for both readers. |
| JsonRpc.HeadersCutShort | internal/jsonrpc2/jsonrpc2.go:372-376 | Input that ends inside the headers, after a valid Content-Length line, is a read error for both readers. |
| JsonRpc.HeaderAt | internal/jsonrpc2/jsonrpc2.go:310 | The header `writeMessage` writes reads back as its length and ends right after itself. |
| JsonRpc.OtherHeaderIgnored | internal/jsonrpc2/jsonrpc2.go:388 | An extra header line before the Content-Length header changes nothing. |
| JsonRpc.LastContentLengthWins | internal/jsonrpc2/jsonrpc2.go:381-387 | With two Content-Length headers whose values fit in an `int`, the later one decides. |
| JsonRpc.ReadFrame | internal/jsonrpc2/jsonrpc2.go:370-398 | The method computes `ReadFrameSpec`, the corrected reader. |
| JsonRpc.ReadHeaderLines | internal/jsonrpc2/jsonrpc2.go:372-389 | The header loop computes `ReadHeaders`. |
| JsonRpc.FrameRoundTrip | internal/jsonrpc2/jsonrpc2.go:302-316 | Reading back what `writeMessage` wrote gives the body and leaves the rest of the stream unread. The body's length is a Go `int`, so it fits in 64 bits. |
| JsonRpc.EncodeFrame | internal/jsonrpc2/jsonrpc2.go:302-316 | The frame starts with `Content-Length: ` and ends with the blank line and the body. |
| JsonRpc.CallResult | internal/jsonrpc2/jsonrpc2.go:265-276 | A closed channel gives `ErrClosed`. A delivered error is returned as it is; otherwise the result. |
| JsonRpc.Conn.constructor | internal/jsonrpc2/jsonrpc2.go:204-214 | A new connection has no pending calls, sequence 0 and is open. |
| JsonRpc.Conn.Call | internal/jsonrpc2/jsonrpc2.go:229-257 | The call takes the current sequence number as a fresh id and increments it. The entry stays pending only when encoding and writing succeed. |
| JsonRpc.Conn.Cancel | internal/jsonrpc2/jsonrpc2.go:259-264 | Cancellation removes only that entry. |
| JsonRpc.Conn.Close | internal/jsonrpc2/jsonrpc2.go:217-220 | Marks the connection done and changes nothing else. |
| JsonRpc.Conn.Receive | internal/jsonrpc2/jsonrpc2.go:330-366 | A request is dispatched. A response resolves the pending call with its id and removes it; one with no entry is dropped. Nothing else changes. |
| JsonRpc.Conn.Shutdown | internal/jsonrpc2/jsonrpc2.go:319-328 | Every pending call is woken, and the table is left empty and done. |
| JsonRpc.Conn.ReadLoop | internal/jsonrpc2/jsonrpc2.go:318-367 | After the loop the table is empty and done. Every delivered id was pending and is delivered once; the cleanup wakes exactly the pending ids no response resolved. |

## Left out

- Goroutines, mutexes, channels and `sync.Once` are not modelled. Calls, frames and the shutdown are sequential steps of `JsonRpc.Conn`, and waiting on a reply channel is `JsonRpc.CallResult`.
- JSON encoding and decoding are not modelled: a message is a decoded object, or the parser is a parameter. `Notify` and `writeMessage` are modelled only as the frame they write (`EncodeFrame`).
- `ID.String` and `ID.MarshalJSON` are left out; the ID is kept as its fields.
- cel-go is not modelled. The parser, type checker, printer (`AstToString`), `Compile`, `IsAssignableType`, `operators.FindReverse*`, the type-conversion table, documentation metadata and `regexp` are parameters or tables.
- `lineColToByteOffset` is defined in no file of this model. The requests take the byte offset as given.
- `unicode.IsLetter` and `unicode.IsDigit` are exact only on Latin-1 (code points below 256). Above that nothing counts as a letter or digit.
- White space in the trimming and word scans is ASCII white space.
- Go map iteration order: `Functions()`, `MacroCalls()` and the symbol map are sequences in one fixed order, since Go gives none.
- A CEL type is identified by its `String()` name.
- Semantic tokens are sorted with a stable insertion sort. `slices.SortFunc` is unstable, so this is one of the orders it may produce; tokens at the same position may come out in another order in the source.
- Sorting.SortInPlace: the sort is an insertion sort, not Go's pattern-defeating quicksort. Only sortedness and permutation are stated.
- SemanticTokens.ComputeSemanticTokens: decoding is stated only for texts below 4 GiB, where every field fits `uint32`. Longer texts would wrap.
- Signatures.ComputeSignatureHelp: the active parameter uses the corrected clamp (see Findings), not the wrap-around as written. The `len(sigs) == 0` branch is dead because `generateSignatures` is never empty.
- Format.Formatting: the end column of the edit is measured in bytes, as the source does, not in UTF-16 units.
- JsonRpc.ReadFrame: the method, and `Conn.ReadLoop` through it, runs the corrected reader (see Findings). A negative Content-Length gives "bad Content-Length" rather than the panic of the source. `ReadFrameAsWritten` is the reader as written.
- Go's `int` is taken to be 64 bits wide, so `strconv.Atoi` accepts exactly the values of `int64`.
- Cel.ByteOffsetToLineCol: the source returns `uint32` line and column and adds each rune's UTF-16 width in 32 bits. The model keeps both unbounded, which differs only for texts of 4 GiB or more.
- Format.Formatting: the line count and last-line length of the edit's end are cast to `uint32` in the source. The model keeps them unbounded, which differs only for documents of 4 GiB or more.
- Format.StripLastLine: the overwrite of `exprLines[lastIdx]` aliases `lines` in Go. The model writes to a copy of the body, which gives the same parts because `lines` is not read again past the body.
- Completion documentation (`docString`) is kept as the description string; the markup wrapper is left out.
- Cel.FindMethodNameAfterDot requires `from <= |text|`, because Go panics on the slice otherwise.
- `initialize`, inlay hints (`inlay_hints.go`), `file.go` (folded into `Server.File`), `cmd/cells/main.go` and the `Serve` plumbing are not part of this model.
- The request handlers' parameter decoding (`json.Unmarshal` of params) and their error returns are left out. The handlers are modelled by the `compute*` operations and `Server.Documents`.

## Findings

| source | as written | input that shows it | evidently intended | confidence | as-written member | corrected member |
|---|---|---|---|---|---|---|
| internal/jsonrpc2/jsonrpc2.go:381-393 | A negative `Content-Length` parses, is not zero, and reaches `make([]byte, n)`, which panics in the read loop. | `Content-Length: -1\r\n\r\n` | A negative length is rejected like an unparsable one, and the connection closes cleanly. | not executed | JsonRpc.NegativeContentLengthPanics | JsonRpc.ReadFrameCorrection |
| internal/lsp/signature_help.go:195-205 | With no arguments and no commas, `uint32(len(call.Args()) - 1)` wraps to 4294967295. | `f()` with the cursor between the parentheses | Active parameter 0, as the comment on the zero-argument case says. | not executed | Signatures.EmptyCallParamIndex | Signatures.CountParametersBeforeCursor |
