/**
 * The server's request routing and its table of open documents
 * (internal/lsp/lsp.go, internal/lsp/file.go).
 *
 * Documents are kept in full-sync mode: every change notification carries
 * the whole new text. Decoding request parameters from JSON and publishing
 * diagnostics are not modelled; the methods below take the decoded
 * parameters and return what would be published.
 */
module Server {
  import opened Text
  import JsonRpc

  /** An open document (`file`). The version is the client's `int32` counter. */
  datatype File = File(uri: string, version: int, content: string)

  /** The element type of `contentChanges`: whole-document or ranged change, or none of the known kinds. */
  datatype ContentChange =
    | WholeDocument(text: string)
    | Partial(text: string)
    | Unrecognized

  /** What a request or notification is routed to (`handle`). */
  datatype Route =
    | Initialize
    | Initialized
    | Shutdown
    | Exit
    | DidOpen
    | DidChange
    | DidClose
    | Hover
    | Diagnostic
    | SemanticTokensFull
    | MethodNotFound(error: JsonRpc.RpcError)

  const HandledMethods: set<string> := {
    "initialize", "initialized", "shutdown", "exit",
    "textDocument/didOpen", "textDocument/didChange", "textDocument/didClose",
    "textDocument/hover", "textDocument/diagnostic", "textDocument/semanticTokens/full"
  }

  /** `handle`: every other method is answered with a method-not-found error naming it. */
  function RouteOf(methodName: string): (r: Route)
    ensures r.MethodNotFound? <==> methodName !in HandledMethods
    ensures r.MethodNotFound? ==>
      r.error == JsonRpc.RpcError(JsonRpc.CodeMethodNotFound, "method not supported: " + methodName)
    ensures r == DidOpen <==> methodName == "textDocument/didOpen"
    ensures r == DidChange <==> methodName == "textDocument/didChange"
    ensures r == DidClose <==> methodName == "textDocument/didClose"
  {
    match methodName
    case "initialize" => Initialize
    case "initialized" => Initialized
    case "shutdown" => Shutdown
    case "exit" => Exit
    case "textDocument/didOpen" => DidOpen
    case "textDocument/didChange" => DidChange
    case "textDocument/didClose" => DidClose
    case "textDocument/hover" => Hover
    case "textDocument/diagnostic" => Diagnostic
    case "textDocument/semanticTokens/full" => SemanticTokensFull
    case _ => MethodNotFound(JsonRpc.RpcError(JsonRpc.CodeMethodNotFound, "method not supported: " + methodName))
  }

  /**
   * The content after a change notification: the text of the first change
   * when it is of a known kind, otherwise the old content.
   */
  function ChangedContent(content: string, changes: seq<ContentChange>): (c: string)
    ensures changes == [] ==> c == content
    ensures changes != [] && !changes[0].Unrecognized? ==> c == changes[0].text
  {
    if |changes| > 0 then
      match changes[0]
      case WholeDocument(text) => text
      case Partial(text) => text
      case Unrecognized => content
    else content
  }

  /** Full sync: changes after the first one are ignored. */
  lemma OnlyFirstChangeCounts(content: string, changes: seq<ContentChange>, later: seq<ContentChange>)
    requires changes != []
    ensures ChangedContent(content, changes[..1] + later) == ChangedContent(content, changes)
  {
    assert (changes[..1] + later)[0] == changes[0];
  }

  datatype ChangeError = NotOpen(uri: string)

  /** The server's state (`server`): the open documents by URI. */
  class Documents {
    var files: map<string, File>

    /** Each document is filed under its own URI. */
    predicate Valid()
      reads this
    {
      forall u :: u in files ==> files[u].uri == u
    }

    /** `newServer`. */
    constructor ()
      ensures Valid() && files == map[]
    {
      files := map[];
    }

    /** `didOpen`: (re)opens the document; its snapshot is what diagnostics are published for. */
    method DidOpen(uri: string, version: int, text: string) returns (published: File)
      requires Valid()
      modifies this
      ensures Valid()
      ensures files == old(files)[uri := File(uri, version, text)]
      ensures published == File(uri, version, text)
    {
      published := File(uri, version, text);
      files := files[uri := published];
    }

    /**
     * `didChange`: a change to a document that is not open is an error and
     * changes nothing; otherwise the version is always taken and the content
     * follows `ChangedContent`.
     */
    method DidChange(uri: string, version: int, changes: seq<ContentChange>) returns (r: Result)
      requires Valid()
      modifies this
      ensures Valid()
      ensures uri !in old(files) ==> r == ChangeFailed(NotOpen(uri)) && files == old(files)
      ensures uri in old(files) ==>
        && r == Changed(File(uri, version, ChangedContent(old(files)[uri].content, changes)))
        && files == old(files)[uri := r.published]
    {
      if uri !in files {
        return ChangeFailed(NotOpen(uri));
      }
      var f := files[uri];
      var updated := File(f.uri, version, ChangedContent(f.content, changes));
      files := files[uri := updated];
      r := Changed(updated);
    }

    /** `didClose`. */
    method DidClose(uri: string)
      requires Valid()
      modifies this
      ensures Valid()
      ensures files == old(files) - {uri}
    {
      files := files - {uri};
    }

    /** The lookup of `semanticTokensFull`, `hover` and `diagnosticFull`: no document, no file. */
    method Lookup(uri: string) returns (f: Option<File>)
      requires Valid()
      ensures f.Some? <==> uri in files
      ensures f.Some? ==> f.value == files[uri] && f.value.uri == uri
    {
      if uri in files {
        f := Some(files[uri]);
      } else {
        f := None;
      }
    }
  }

  datatype Result = Changed(published: File) | ChangeFailed(error: ChangeError)

  /** Opening, then closing, a document leaves no trace of it. */
  method OpenThenClose(uri: string, version: int, text: string, d: Documents)
    requires d.Valid()
    modifies d
    ensures d.Valid() && uri !in d.files
    ensures d.files == old(d.files) - {uri}
  {
    var _ := d.DidOpen(uri, version, text);
    d.DidClose(uri);
  }

  /** A change after an open sees the opened text as the old content. */
  method OpenThenChange(uri: string, v1: int, v2: int, text: string, changes: seq<ContentChange>, d: Documents)
    returns (r: Result)
    requires d.Valid()
    modifies d
    ensures d.Valid()
    ensures r == Changed(File(uri, v2, ChangedContent(text, changes)))
    ensures d.files == old(d.files)[uri := r.published]
  {
    var _ := d.DidOpen(uri, v1, text);
    r := d.DidChange(uri, v2, changes);
  }
}
