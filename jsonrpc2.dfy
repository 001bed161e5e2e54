/**
 * JSON-RPC 2.0 over Content-Length framed streams (internal/jsonrpc2/jsonrpc2.go).
 *
 * The byte stream carries frames "Content-Length: N\r\n\r\n" followed by N
 * bytes of JSON (the header part of the LSP 3.17 base protocol). JSON text
 * itself is not modelled: a decoded message is a map from member names to
 * the few kinds of JSON value the connection looks at.
 */
module JsonRpc {
  import opened Text

  /* ---------------- error codes and errors ---------------- */

  // Error codes of section 5.1 of the JSON-RPC 2.0 Specification.
  const CodeParseError := -32700
  const CodeInvalidRequest := -32600
  const CodeMethodNotFound := -32601
  const CodeInvalidParams := -32602
  const CodeInternalError := -32603

  datatype RpcError = RpcError(code: int, message: string)

  const ErrorPrefix := "jsonrpc2: code "

  /** `Error.Error`: "jsonrpc2: code <code> message: <message>". */
  function ErrorText(e: RpcError): (s: string)
    ensures ErrorPrefix <= s && HasSuffix(s, e.message)
  {
    ErrorPrefix + FormatInt(e.code) + " message: " + e.message
  }

  /** The code printed in an error's text reads back as that code. */
  lemma ErrorTextCode(e: RpcError)
    requires InInt64(e.code)
    ensures var s := ErrorText(e);
      |ErrorPrefix| + |FormatInt(e.code)| <= |s|
      && ParseInt(s[|ErrorPrefix|..|ErrorPrefix| + |FormatInt(e.code)|]) == Some(e.code)
  {
    var s := ErrorText(e);
    assert s[|ErrorPrefix|..|ErrorPrefix| + |FormatInt(e.code)|] == FormatInt(e.code);
    ParseFormatInt(e.code);
  }

  /* ---------------- wire values ---------------- */

  /** The JSON values the connection distinguishes; every other value is `JOther`. */
  datatype Json =
    | JNull
    | JNumber(n: int)
    | JString(s: string)
    | JErrorObject(code: int, message: string)
    | JOther

  type Object = map<string, Json>

  const MaxUint64 := 0xFFFF_FFFF_FFFF_FFFF

  /** A request ID: a number or a string (`ID`). */
  datatype Id = Id(num: nat, str: string, isString: bool)

  /** `ID.UnmarshalJSON`: a uint64 number, else a string. `null` decodes as the number 0. */
  function DecodeId(v: Json): (r: Option<Id>)
    ensures r.Some? && !r.value.isString ==> r.value.num <= MaxUint64
    ensures v.JString? ==> r == Some(Id(0, v.s, true))
    ensures (v.JErrorObject? || v.JOther?) ==> r.None?
  {
    match v
    case JNull => Some(Id(0, "", false))
    case JNumber(n) => if 0 <= n <= MaxUint64 then Some(Id(n, "", false)) else None
    case JString(s) => Some(Id(0, s, true))
    case _ => None
  }

  datatype Request = Request(methodName: string, params: Option<Json>, id: Id, notif: bool)

  /**
   * `Request.UnmarshalJSON`: the request is a notification exactly when the
   * "id" member is absent.
   */
  function DecodeRequest(obj: Object): (r: Option<Request>)
    ensures r.Some? ==> (r.value.notif <==> "id" !in obj)
    ensures r.Some? && "method" in obj && obj["method"].JString? ==> r.value.methodName == obj["method"].s
    ensures r.Some? ==> r.value.params == (if "params" in obj then Some(obj["params"]) else None)
    ensures r.None? <==>
      ("method" in obj && !(obj["method"].JString? || obj["method"].JNull?))
      || ("id" in obj && DecodeId(obj["id"]).None?)
  {
    var name :=
      if "method" !in obj then Some("")
      else match obj["method"]
        case JString(s) => Some(s)
        case JNull => Some("")
        case _ => None;
    var params := if "params" in obj then Some(obj["params"]) else None;
    if name.None? then None
    else if "id" in obj then
      match DecodeId(obj["id"])
      case None => None
      case Some(id) => Some(Request(name.value, params, id, false))
    else Some(Request(name.value, params, Id(0, "", false), true))
  }

  /** A response received for one of our calls (`incomingResponse`). */
  datatype IncomingResponse = IncomingResponse(id: Id, result: Option<Json>, error: Option<RpcError>)

  function DecodeResponse(obj: Object): (r: Option<IncomingResponse>)
    ensures r.Some? && "id" !in obj ==> r.value.id == Id(0, "", false)
    ensures r.Some? && "error" in obj && obj["error"].JErrorObject? ==>
      r.value.error == Some(RpcError(obj["error"].code, obj["error"].message))
  {
    var id := if "id" in obj then DecodeId(obj["id"]) else Some(Id(0, "", false));
    var result := if "result" in obj && !obj["result"].JNull? then Some(obj["result"]) else None;
    var error :=
      if "error" !in obj then Some(None)
      else match obj["error"]
        case JNull => Some(None)
        case JErrorObject(c, m) => Some(Some(RpcError(c, m)))
        case _ => None;
    if id.None? || error.None? then None
    else Some(IncomingResponse(id.value, result, error.value))
  }

  datatype Kind = RequestMessage | ResponseMessage | Unreadable

  /** The probe of `readLoop`: a message with a non-null string "method" is a request. */
  function Classify(obj: Object): (k: Kind)
    ensures k == RequestMessage <==> "method" in obj && obj["method"].JString?
    ensures k == ResponseMessage <==> "method" !in obj || obj["method"].JNull?
  {
    if "method" !in obj then ResponseMessage
    else match obj["method"]
      case JString(_) => RequestMessage
      case JNull => ResponseMessage
      case _ => Unreadable
  }

  /* ---------------- handler responses ---------------- */

  datatype HandlerError =
    | Rpc(e: RpcError)          // an error that is, or wraps, an `*Error`
    | Other(text: string)       // any other error, with its `Error()` text

  datatype HandlerResult =
    | Success(value: Json)
    | Unmarshalable(text: string)   // the result cannot be encoded as JSON
    | Failure(err: HandlerError)

  datatype Response = Response(id: Id, result: Option<Json>, error: Option<RpcError>)

  /**
   * `HandlerFunc.Handle`: notifications get no response; errors that are
   * not JSON-RPC errors become internal errors carrying their text.
   */
  function Respond(req: Request, outcome: HandlerResult): (r: Option<Response>)
    ensures r.None? <==> req.notif
    ensures r.Some? ==> r.value.id == req.id && (r.value.result.None? <==> r.value.error.Some?)
    ensures r.Some? && outcome.Failure? && outcome.err.Rpc? ==> r.value.error == Some(outcome.err.e)
    ensures r.Some? && outcome.Failure? && outcome.err.Other? ==>
      r.value.error == Some(RpcError(CodeInternalError, outcome.err.text))
    ensures r.Some? && outcome.Unmarshalable? ==> r.value.error == Some(RpcError(CodeInternalError, outcome.text))
    ensures r.Some? && outcome.Success? ==> r.value.result == Some(outcome.value)
  {
    if req.notif then None
    else match outcome
      case Failure(Rpc(e)) => Some(Response(req.id, None, Some(e)))
      case Failure(Other(text)) => Some(Response(req.id, None, Some(RpcError(CodeInternalError, text))))
      case Unmarshalable(text) => Some(Response(req.id, None, Some(RpcError(CodeInternalError, text))))
      case Success(v) => Some(Response(req.id, Some(v), None))
  }

  /* ---------------- framing ---------------- */

  const ContentLengthPrefix := "Content-Length: "

  /** The bytes `writeMessage` puts on the wire for a JSON body. */
  function EncodeFrame(body: string): (r: string)
    ensures |ContentLengthPrefix| < |r| && r[..|ContentLengthPrefix|] == ContentLengthPrefix
    ensures HasSuffix(r, "\r\n\r\n" + body)
  {
    Header(|body|) + body
  }

  datatype FrameError =
    | EndOfInput            // a header line without its '\n'
    | BadContentLength      // a Content-Length value `strconv.Atoi` rejects
    | MissingContentLength  // no Content-Length, or Content-Length: 0
    | ShortBody             // fewer body bytes than announced

  datatype FrameResult =
    | Frame(body: string, rest: string)
    | ReadError(reason: FrameError)
    | Panic                 // `make([]byte, n)` with a negative n

  datatype Headers = HeadersDone(bodyStart: nat, contentLength: int) | HeaderError(reason: FrameError)

  const LineEnd: set<char> := {'\r', '\n'}

  /** What one header line does: stop with the headers' outcome, or go on at the next line with the length so far. */
  datatype HeaderStep = Stop(h: Headers) | NextLine(next: nat, contentLength: int)

  /**
   * One pass of the header loop of `readFrame` at byte `pos`: read up to
   * '\n' and trim the line end; an empty line ends the headers; a
   * Content-Length header sets the length; other headers are ignored.
   */
  function HeaderLine(input: string, pos: nat, contentLength: int): (st: HeaderStep)
    requires pos <= |input|
    ensures st.NextLine? ==> pos < st.next <= |input|
    ensures st.Stop? && st.h.HeadersDone? ==> pos < st.h.bodyStart <= |input| && st.h.contentLength == contentLength
  {
    var nl := IndexFrom(input, "\n", pos);
    if nl < 0 then Stop(HeaderError(EndOfInput))
    else LineStep(TrimRightSet(input[pos..nl + 1], LineEnd), nl + 1, contentLength)
  }

  /**
   * What a header line, read and trimmed, does when the next line starts at
   * `next`: an empty line ends the headers; a Content-Length header sets
   * the length, or fails when its value does not parse; any other header
   * leaves the length as it is.
   */
  function LineStep(line: string, next: nat, contentLength: int): (st: HeaderStep)
    ensures st.NextLine? ==> st.next == next && line != ""
    ensures st.Stop? && st.h.HeadersDone? <==> line == ""
    ensures st.Stop? && st.h.HeadersDone? ==> st.h == HeadersDone(next, contentLength)
    ensures line != "" && !(ContentLengthPrefix <= line) ==> st == NextLine(next, contentLength)
  {
    if line == "" then Stop(HeadersDone(next, contentLength))
    else if ContentLengthPrefix <= line then
      match ParseInt(line[|ContentLengthPrefix|..])
      case None => Stop(HeaderError(BadContentLength))
      case Some(n) => NextLine(next, n)
    else NextLine(next, contentLength)
  }

  /** The header loop of `readFrame` from byte `pos`: the last Content-Length header wins. */
  function ReadHeaders(input: string, pos: nat, contentLength: int): (h: Headers)
    requires pos <= |input|
    ensures h.HeadersDone? ==> pos < h.bodyStart <= |input|
    decreases |input| - pos
  {
    match HeaderLine(input, pos, contentLength)
    case Stop(h) => h
    case NextLine(next, n) => ReadHeaders(input, next, n)
  }

  /** A line that ends the header loop decides its outcome. */
  lemma ReadHeadersStop(input: string, pos: nat, contentLength: int, h: Headers)
    requires pos <= |input| && HeaderLine(input, pos, contentLength) == Stop(h)
    ensures ReadHeaders(input, pos, contentLength) == h
  {
  }

  /** A line that does not end the header loop hands on to the next one. */
  lemma ReadHeadersNext(input: string, pos: nat, contentLength: int, next: nat, n: int)
    requires pos <= |input| && HeaderLine(input, pos, contentLength) == NextLine(next, n)
    ensures next <= |input| && ReadHeaders(input, pos, contentLength) == ReadHeaders(input, next, n)
  {
  }

  /** `readFrame` as written: a negative Content-Length reaches `make` and panics. */
  function ReadFrameAsWritten(input: string): (r: FrameResult)
    ensures r.Panic? <==> ReadHeaders(input, 0, 0).HeadersDone? && ReadHeaders(input, 0, 0).contentLength < 0
    ensures r.Frame? ==> |r.body| > 0 && HasSuffix(input, r.body + r.rest)
  {
    match ReadHeaders(input, 0, 0)
    case HeaderError(e) => ReadError(e)
    case HeadersDone(start, n) =>
      if n == 0 then ReadError(MissingContentLength)
      else if n < 0 then Panic
      else if |input| - start < n then ReadError(ShortBody)
      else
        assert input[start..] == input[start..start + n] + input[start + n..];
        Frame(input[start..start + n], input[start + n..])
  }

  /** `readFrame` with a negative Content-Length rejected like an unparsable one. */
  function ReadFrameSpec(input: string): (r: FrameResult)
    ensures !r.Panic?
    ensures r.Frame? ==> |r.body| > 0 && HasSuffix(input, r.body + r.rest)
  {
    match ReadHeaders(input, 0, 0)
    case HeaderError(e) => ReadError(e)
    case HeadersDone(start, n) =>
      if n == 0 then ReadError(MissingContentLength)
      else if n < 0 then ReadError(BadContentLength)
      else if |input| - start < n then ReadError(ShortBody)
      else
        assert input[start..] == input[start..start + n] + input[start + n..];
        Frame(input[start..start + n], input[start + n..])
  }

  /** The two readers differ only where the as-written one panics. */
  lemma ReadFrameCorrection(input: string)
    ensures ReadFrameAsWritten(input) == ReadFrameSpec(input)
         || (ReadFrameAsWritten(input) == Panic && ReadFrameSpec(input) == ReadError(BadContentLength))
  {
  }

  /** A header line ended by "\r\n" is read, trimmed, in one call of `ReadString`. */
  lemma {:induction false} LineAt(input: string, pos: nat, line: string)
    requires pos + |line| + 2 <= |input|
    requires input[pos..pos + |line| + 2] == line + "\r\n"
    requires forall k :: 0 <= k < |line| ==> line[k] != '\n'
    requires line == [] || line[|line| - 1] != '\r'
    ensures IndexFrom(input, "\n", pos) == pos + |line| + 1
    ensures TrimRightSet(input[pos..IndexFrom(input, "\n", pos) + 1], LineEnd) == line
  {
    forall j | pos <= j < pos + |line| + 1
      ensures input[j] != '\n'
    {
      assert input[j] == (line + "\r\n")[j - pos];
    }
    assert input[pos + |line| + 1] == (line + "\r\n")[|line| + 1];
    FirstNewline(input, pos, |line| + 1);
    assert (line + "\r\n")[..|line| + 1] == line + "\r";
    assert (line + "\r")[..|line|] == line;
  }

  /** The facts about a header line ended by "\r\n" that one pass of the header loop relies on. */
  predicate LineEndsAt(input: string, pos: nat, line: string)
  {
    && pos + |line| + 2 <= |input| && input[pos..pos + |line| + 2] == line + "\r\n"
    && (forall k :: 0 <= k < |line| ==> line[k] != '\n')
    && (line == [] || line[|line| - 1] != '\r')
  }

  /** One pass reads exactly that line, trimmed, and goes on after its "\r\n". */
  lemma ReadsLine(input: string, pos: nat, line: string, contentLength: int)
    requires LineEndsAt(input, pos, line)
    ensures HeaderLine(input, pos, contentLength) == LineStep(line, pos + |line| + 2, contentLength)
  {
    LineAt(input, pos, line);
  }

  /** The empty line ends the headers. */
  lemma BlankLineStep(input: string, pos: nat, contentLength: int, next: nat)
    requires pos + 2 <= |input| && input[pos..pos + 2] == "\r\n"
    requires next == pos + 2
    ensures ReadHeaders(input, pos, contentLength) == HeadersDone(next, contentLength)
  {
    assert LineEndsAt(input, pos, "");
    ReadsLine(input, pos, "", contentLength);
    ReadHeadersStop(input, pos, contentLength, HeadersDone(next, contentLength));
  }

  /** A header line other than Content-Length is skipped. */
  lemma OtherLineStep(input: string, pos: nat, line: string, contentLength: int, next: nat)
    requires LineEndsAt(input, pos, line) && line != [] && !(ContentLengthPrefix <= line)
    requires next == pos + |line| + 2
    ensures next <= |input|
    ensures ReadHeaders(input, pos, contentLength) == ReadHeaders(input, next, contentLength)
  {
    OtherLine(input, pos, line, contentLength);
    ReadHeadersNext(input, pos, contentLength, pos + |line| + 2, contentLength);
  }

  lemma OtherLine(input: string, pos: nat, line: string, contentLength: int)
    requires LineEndsAt(input, pos, line) && line != [] && !(ContentLengthPrefix <= line)
    ensures HeaderLine(input, pos, contentLength) == NextLine(pos + |line| + 2, contentLength)
  {
    ReadsLine(input, pos, line, contentLength);
  }

  /** The header `writeMessage` writes, for any announced length. */
  function Header(n: int): string
  {
    ContentLengthLine(n) + "\r\n"
  }

  function ContentLengthLine(n: int): string
  {
    ContentLengthPrefix + FormatInt(n) + "\r\n"
  }

  /** The Content-Length line without its "\r\n": one line, naming the header, with the number after the prefix. */
  lemma ContentLengthLineShape(n: int)
    ensures var line := ContentLengthPrefix + FormatInt(n);
      && ContentLengthLine(n) == line + "\r\n"
      && (forall k :: 0 <= k < |line| ==> line[k] != '\n')
      && line[|line| - 1] != '\r'
      && ContentLengthPrefix <= line
      && line[|ContentLengthPrefix|..] == FormatInt(n)
  {
    var digits := FormatInt(n);
    var line := ContentLengthPrefix + digits;
    forall k | 0 <= k < |line|
      ensures line[k] != '\n'
    {
      if k >= |ContentLengthPrefix| {
        assert line[k] == digits[k - |ContentLengthPrefix|];
        if n < 0 && k > |ContentLengthPrefix| {
          assert digits[k - |ContentLengthPrefix|] == FormatNat(-n)[k - |ContentLengthPrefix| - 1];
        }
      }
    }
    assert line[|line| - 1] == digits[|digits| - 1];
    if n < 0 {
      assert digits[|digits| - 1] == FormatNat(-n)[|FormatNat(-n)| - 1];
    }
    assert line[|ContentLengthPrefix|..] == digits;
  }

  /** A Content-Length header whose value parses sets the length and moves to the next line. */
  lemma ContentLengthStep(input: string, pos: nat, line: string, n: int, contentLength: int, next: nat)
    requires LineEndsAt(input, pos, line) && line != []
    requires ContentLengthPrefix <= line && ParseInt(line[|ContentLengthPrefix|..]) == Some(n)
    requires next == pos + |line| + 2
    ensures next <= |input|
    ensures ReadHeaders(input, pos, contentLength) == ReadHeaders(input, next, n)
  {
    ReadsLine(input, pos, line, contentLength);
    ReadHeadersNext(input, pos, contentLength, next, n);
  }

  /** A "Content-Length: n" line sets the length and moves to the next line. */
  lemma ContentLengthLineStep(input: string, p: nat, n: int, contentLength: int, next: nat)
    requires InInt64(n)
    requires next == p + |ContentLengthLine(n)|
    requires next <= |input| && input[p..next] == ContentLengthLine(n)
    ensures ReadHeaders(input, p, contentLength) == ReadHeaders(input, next, n)
  {
    var line := ContentLengthPrefix + FormatInt(n);
    ContentLengthLineShape(n);
    ParseFormatInt(n);
    assert LineEndsAt(input, p, line);
    ContentLengthStep(input, p, line, n, contentLength, next);
  }

  /** The header loop reads back the announced length and stops right after the header. */
  lemma {:induction false} HeaderAt(input: string, p: nat, n: int, contentLength: int, end: nat)
    requires InInt64(n)
    requires end == p + |Header(n)|
    requires end <= |input| && input[p..end] == Header(n)
    ensures ReadHeaders(input, p, contentLength) == HeadersDone(end, n)
  {
    var mid := p + |ContentLengthLine(n)|;
    SliceHalves(input, p, mid, end, ContentLengthLine(n), "\r\n");
    ContentLengthLineStep(input, p, n, contentLength, mid);
    BlankLineStep(input, mid, n, end);
  }

  /** A slice holding `a + b` is the slice holding `a` followed by the one holding `b`. */
  lemma SliceHalves(s: string, p: nat, mid: nat, end: nat, a: string, b: string)
    requires p <= end <= |s| && s[p..end] == a + b && mid == p + |a|
    ensures mid <= end && s[p..mid] == a && s[mid..end] == b
  {
    assert s[p..mid] == (a + b)[..|a|];
    assert s[mid..end] == (a + b)[|a|..];
  }

  /** A header line other than Content-Length does not change the frame that is read. */
  lemma OtherHeaderIgnored(line: string, n: int, rest: string)
    requires InInt64(n)
    requires line != [] && !(ContentLengthPrefix <= line)
    requires forall k :: 0 <= k < |line| ==> line[k] != '\n'
    requires line[|line| - 1] != '\r'
    ensures ReadHeaders(line + "\r\n" + Header(n) + rest, 0, 0) == HeadersDone(|line| + 2 + |Header(n)|, n)
  {
    var input := line + "\r\n" + Header(n) + rest;
    ConcatSlices(line + "\r\n", Header(n), rest);
    assert LineEndsAt(input, 0, line);
    OtherThenHeader(input, line, n, |line| + 2, |line| + 2 + |Header(n)|);
  }

  /** An other header at the start of `input` followed by a `writeMessage` header. */
  lemma OtherThenHeader(input: string, line: string, n: int, p: nat, end: nat)
    requires InInt64(n)
    requires LineEndsAt(input, 0, line) && line != [] && !(ContentLengthPrefix <= line)
    requires p == |line| + 2 && end == p + |Header(n)| && end <= |input|
    requires input[p..end] == Header(n)
    ensures ReadHeaders(input, 0, 0) == HeadersDone(end, n)
  {
    OtherLineStep(input, 0, line, 0, p);
    HeaderAt(input, p, n, 0, end);
  }

  /** The first two parts of a three-part concatenation are slices of it. */
  lemma ConcatSlices(a: string, b: string, c: string)
    ensures |a| + |b| <= |a + b + c|
    ensures (a + b + c)[0..|a|] == a
    ensures (a + b + c)[|a|..|a| + |b|] == b
  {
  }

  /**
   * With two Content-Length headers the later one decides the body length,
   * when both values fit in an `int`.
   */
  lemma LastContentLengthWins(m: int, n: int, rest: string)
    requires InInt64(m) && InInt64(n)
    ensures ReadHeaders(ContentLengthLine(m) + Header(n) + rest, 0, 0)
         == HeadersDone(|ContentLengthLine(m)| + |Header(n)|, n)
  {
    ConcatSlices(ContentLengthLine(m), Header(n), rest);
    LengthThenHeader(ContentLengthLine(m) + Header(n) + rest, m, n,
      |ContentLengthLine(m)|, |ContentLengthLine(m)| + |Header(n)|);
  }

  /** A Content-Length line at the start of `input` followed by a `writeMessage` header. */
  lemma LengthThenHeader(input: string, m: int, n: int, c: nat, end: nat)
    requires InInt64(m) && InInt64(n)
    requires c == |ContentLengthLine(m)| && end == c + |Header(n)| && end <= |input|
    requires input[0..c] == ContentLengthLine(m)
    requires input[c..end] == Header(n)
    ensures ReadHeaders(input, 0, 0) == HeadersDone(end, n)
  {
    ContentLengthLineStep(input, 0, m, 0, c);
    HeaderAt(input, c, n, m, end);
  }

  /** Every negative Content-Length crashes the as-written reader; the corrected one rejects it. */
  lemma NegativeContentLengthPanics(n: int, rest: string)
    requires MinInt64 <= n < 0
    ensures ReadFrameAsWritten(Header(n) + rest) == Panic
    ensures ReadFrameSpec(Header(n) + rest) == ReadError(BadContentLength)
  {
    var input := Header(n) + rest;
    assert input[0..|Header(n)|] == Header(n);
    HeaderAt(input, 0, n, 0, |Header(n)|);
  }

  /** A Content-Length value that `strconv.Atoi` rejects ends the header loop at once with an error. */
  lemma ContentLengthRejected(input: string, pos: nat, line: string, contentLength: int)
    requires LineEndsAt(input, pos, line) && line != []
    requires ContentLengthPrefix <= line && ParseInt(line[|ContentLengthPrefix|..]).None?
    ensures ReadHeaders(input, pos, contentLength) == HeaderError(BadContentLength)
  {
    ReadsLine(input, pos, line, contentLength);
    ReadHeadersStop(input, pos, contentLength, HeaderError(BadContentLength));
  }

  /**
   * A first Content-Length beyond the 64-bit range is a read error, whatever
   * follows it: a later Content-Length header is never reached.
   */
  lemma OversizedContentLengthRejected(n: int, rest: string)
    requires !InInt64(n)
    ensures ReadFrameSpec(ContentLengthLine(n) + rest) == ReadError(BadContentLength)
    ensures ReadFrameAsWritten(ContentLengthLine(n) + rest) == ReadError(BadContentLength)
  {
    var input := ContentLengthLine(n) + rest;
    var line := ContentLengthPrefix + FormatInt(n);
    ContentLengthLineShape(n);
    ParseFormatInt(n);
    assert input[0..|ContentLengthLine(n)|] == ContentLengthLine(n);
    assert LineEndsAt(input, 0, line);
    ContentLengthRejected(input, 0, line, 0);
  }

  /** A Content-Length of 0 is reported as a missing length, whatever follows the header. */
  lemma ZeroContentLengthRejected(rest: string)
    ensures ReadFrameSpec(Header(0) + rest) == ReadError(MissingContentLength)
    ensures ReadFrameAsWritten(Header(0) + rest) == ReadError(MissingContentLength)
  {
    var input := Header(0) + rest;
    assert input[0..|Header(0)|] == Header(0);
    HeaderAt(input, 0, 0, 0, |Header(0)|);
  }

  /** Headers that end at once leave the length at 0: a missing Content-Length. */
  lemma NoHeadersRejected(rest: string)
    ensures ReadFrameSpec("\r\n" + rest) == ReadError(MissingContentLength)
    ensures ReadFrameAsWritten("\r\n" + rest) == ReadError(MissingContentLength)
  {
    var input := "\r\n" + rest;
    assert input[0..2] == "\r\n";
    BlankLineStep(input, 0, 0, 2);
  }

  /** Other headers without a Content-Length one are a missing Content-Length too. */
  lemma OnlyOtherHeaderRejected(line: string, rest: string)
    requires line != [] && !(ContentLengthPrefix <= line)
    requires forall k :: 0 <= k < |line| ==> line[k] != '\n'
    requires line[|line| - 1] != '\r'
    ensures ReadFrameSpec(line + "\r\n" + "\r\n" + rest) == ReadError(MissingContentLength)
    ensures ReadFrameAsWritten(line + "\r\n" + "\r\n" + rest) == ReadError(MissingContentLength)
  {
    var input := line + "\r\n" + "\r\n" + rest;
    var p := |line| + 2;
    ConcatSlices(line + "\r\n", "\r\n", rest);
    assert LineEndsAt(input, 0, line);
    OtherLineStep(input, 0, line, 0, p);
    assert input[p..p + 2] == "\r\n";
    BlankLineStep(input, p, 0, p + 2);
  }

  /** A body shorter than the announced length is a read error. */
  lemma ShortBodyRejected(n: int, body: string)
    requires InInt64(n) && 0 < n && |body| < n
    ensures ReadFrameSpec(Header(n) + body) == ReadError(ShortBody)
    ensures ReadFrameAsWritten(Header(n) + body) == ReadError(ShortBody)
  {
    var input := Header(n) + body;
    assert input[0..|Header(n)|] == Header(n);
    HeaderAt(input, 0, n, 0, |Header(n)|);
  }

  /** A header line that the input ends inside, before its '\n', ends the loop with `EndOfInput`. */
  lemma UnterminatedLine(input: string, pos: nat, contentLength: int)
    requires pos <= |input| && '\n' !in input[pos..]
    ensures ReadHeaders(input, pos, contentLength) == HeaderError(EndOfInput)
  {
    IndexFromFirst(input, "\n", pos);
    forall j | pos <= j < |input|
      ensures !OccursAt(input, "\n", j)
    {
      assert input[j] == input[pos..][j - pos];
      assert input[j..j + 1][0] == input[j];
    }
    ReadHeadersStop(input, pos, contentLength, HeaderError(EndOfInput));
  }

  /** Input without any '\n' never completes a header line. */
  lemma EndOfInputRejected(input: string)
    requires '\n' !in input
    ensures ReadFrameSpec(input) == ReadError(EndOfInput)
    ensures ReadFrameAsWritten(input) == ReadError(EndOfInput)
  {
    assert input[0..] == input;
    UnterminatedLine(input, 0, 0);
  }

  /** A Content-Length header and then input that ends before the blank line: `EndOfInput`. */
  lemma HeadersCutShort(n: int, partial: string)
    requires InInt64(n) && '\n' !in partial
    ensures ReadFrameSpec(ContentLengthLine(n) + partial) == ReadError(EndOfInput)
    ensures ReadFrameAsWritten(ContentLengthLine(n) + partial) == ReadError(EndOfInput)
  {
    var input := ContentLengthLine(n) + partial;
    var c := |ContentLengthLine(n)|;
    assert input[0..c] == ContentLengthLine(n);
    assert input[c..] == partial;
    ContentLengthLineStep(input, 0, n, 0, c);
    UnterminatedLine(input, c, n);
  }

  /** `readFrame` reads the header lines and then the body. */
  method ReadFrame(input: string) returns (r: FrameResult)
    ensures r == ReadFrameSpec(input)
  {
    var h := ReadHeaderLines(input);
    if h.HeaderError? {
      return ReadError(h.reason);
    }
    var pos, contentLength := h.bodyStart, h.contentLength;
    if contentLength == 0 {
      return ReadError(MissingContentLength);
    }
    if contentLength < 0 {
      return ReadError(BadContentLength);
    }
    if |input| - pos < contentLength {
      return ReadError(ShortBody);
    }
    r := Frame(input[pos..pos + contentLength], input[pos + contentLength..]);
  }

  /** The header loop of `readFrame`, one line per pass. */
  method ReadHeaderLines(input: string) returns (h: Headers)
    ensures h == ReadHeaders(input, 0, 0)
  {
    var pos: nat := 0;
    var contentLength := 0;
    while true
      invariant pos <= |input|
      invariant ReadHeaders(input, pos, contentLength) == ReadHeaders(input, 0, 0)
      decreases |input| - pos
    {
      var step := HeaderLine(input, pos, contentLength);
      if step.Stop? {
        ReadHeadersStop(input, pos, contentLength, step.h);
        return step.h;
      }
      ReadHeadersNext(input, pos, contentLength, step.next, step.contentLength);
      pos, contentLength := step.next, step.contentLength;
    }
  }

  lemma {:induction false} FirstNewline(s: string, pos: nat, k: nat)
    requires pos + k < |s| && s[pos + k] == '\n'
    requires forall j :: pos <= j < pos + k ==> s[j] != '\n'
    ensures IndexFrom(s, "\n", pos) == pos + k
  {
    IndexFromFirst(s, "\n", pos);
    assert OccursAt(s, "\n", pos + k);
    forall j | pos <= j < pos + k
      ensures !OccursAt(s, "\n", j)
    {
      assert s[j..j + 1][0] == s[j];
    }
  }

  /** Reading back what `writeMessage` wrote yields the body and leaves the rest of the stream. */
  lemma FrameRoundTrip(body: string, rest: string)
    requires 0 < |body| <= MaxInt64
    ensures ReadFrameSpec(EncodeFrame(body) + rest) == Frame(body, rest)
  {
    var h := |Header(|body|)|;
    var input := EncodeFrame(body) + rest;
    assert input[0..h] == Header(|body|);
    HeaderAt(input, 0, |body|, 0, h);
    assert input[h..h + |body|] == body;
    assert input[h + |body|..] == rest;
  }

  /* ---------------- the connection ---------------- */

  /** What a waiting `Call` returns, given what its pending entry received (`None`: the entry was closed). */
  datatype CallOutcome =
    | CallSucceeded(result: Option<Json>)
    | CallFailed(e: RpcError)
    | ConnectionClosed
    | Canceled
    | EncodingFailed
    | WriteFailed

  function CallResult(delivered: Option<IncomingResponse>): (o: CallOutcome)
    ensures o == ConnectionClosed <==> delivered.None?
    ensures delivered.Some? && delivered.value.error.Some? ==> o == CallFailed(delivered.value.error.value)
    ensures delivered.Some? && delivered.value.error.None? ==> o == CallSucceeded(delivered.value.result)
  {
    match delivered
    case None => ConnectionClosed
    case Some(resp) =>
      if resp.error.Some? then CallFailed(resp.error.value) else CallSucceeded(resp.result)
  }

  /** What the read loop does with one decoded frame. */
  datatype Action =
    | Dispatch(req: Request)                        // hand to the handler
    | Deliver(id: nat, resp: IncomingResponse)      // wake the pending call `id`
    | Drop                                          // a response nobody waits for
    | Skip                                          // a message that does not decode

  /** The IDs of the calls that a sequence of actions resolved. */
  function Delivered(actions: seq<Action>): set<nat>
  {
    set k | 0 <= k < |actions| && actions[k].Deliver? :: actions[k].id
  }

  /** No call is resolved twice. */
  predicate DeliveredOnce(actions: seq<Action>)
  {
    forall j, k :: 0 <= j < k < |actions| && actions[j].Deliver? && actions[k].Deliver? ==> actions[j].id != actions[k].id
  }

  /** Appending one action adds its ID, if it resolves a call, and keeps the rest. */
  lemma DeliveredAppend(actions: seq<Action>, a: Action)
    ensures Delivered(actions + [a]) == Delivered(actions) + (if a.Deliver? then {a.id} else {})
    ensures DeliveredOnce(actions) && (a.Deliver? ==> a.id !in Delivered(actions)) ==> DeliveredOnce(actions + [a])
  {
    var t := actions + [a];
    forall x | x in Delivered(t)
      ensures x in Delivered(actions) + (if a.Deliver? then {a.id} else {})
    {
      var k :| 0 <= k < |t| && t[k].Deliver? && t[k].id == x;
      if k < |actions| {
        assert actions[k] == t[k];
      }
    }
    forall x | x in Delivered(actions) + (if a.Deliver? then {a.id} else {})
      ensures x in Delivered(t)
    {
      if x in Delivered(actions) {
        var k :| 0 <= k < |actions| && actions[k].Deliver? && actions[k].id == x;
        assert t[k] == actions[k];
      } else {
        assert t[|actions|] == a;
      }
    }
    if DeliveredOnce(actions) && (a.Deliver? ==> a.id !in Delivered(actions)) {
      forall j, k | 0 <= j < k < |t| && t[j].Deliver? && t[k].Deliver?
        ensures t[j].id != t[k].id
      {
        if k == |actions| {
          assert t[j] == actions[j];
        } else {
          assert t[j] == actions[j] && t[k] == actions[k];
        }
      }
    }
  }

  /**
   * `Conn`: the request counter and the table of calls waiting for a
   * response. Transport, locks and goroutines are not modelled.
   */
  class Conn {
    /** The ID the next `Call` uses (`seq`). */
    var nextId: nat
    /** IDs of calls waiting for their response (the keys of `pend`). */
    var pend: set<nat>
    /** The `done` channel has been closed. */
    var done: bool

    /** Every waiting call has an ID already handed out. */
    predicate Valid()
      reads this
    {
      forall id :: id in pend ==> id < nextId
    }

    /** `NewConn`. */
    constructor ()
      ensures Valid() && nextId == 0 && pend == {} && !done
    {
      nextId := 0;
      pend := {};
      done := false;
    }

    /**
     * The first half of `Call`: take the next ID, register it and send the
     * request. An encoding or write failure unregisters the ID again and
     * ends the call; otherwise the call waits (`outcome` is `None`).
     */
    method Call(encodes: bool, writes: bool) returns (id: nat, outcome: Option<CallOutcome>)
      requires Valid()
      modifies this
      ensures Valid()
      ensures id == old(nextId) && nextId == old(nextId) + 1 && id !in old(pend) && done == old(done)
      ensures !encodes ==> outcome == Some(EncodingFailed) && pend == old(pend)
      ensures encodes && !writes ==> outcome == Some(WriteFailed) && pend == old(pend)
      ensures encodes && writes ==> outcome.None? && pend == old(pend) + {id}
    {
      id := nextId;
      nextId := nextId + 1;
      pend := pend + {id};
      if !encodes {
        pend := pend - {id};
        return id, Some(EncodingFailed);
      }
      if !writes {
        pend := pend - {id};
        return id, Some(WriteFailed);
      }
      outcome := None;
    }

    /** The context of a waiting call is done: its entry is removed. */
    method Cancel(id: nat) returns (outcome: CallOutcome)
      requires Valid()
      modifies this
      ensures Valid() && outcome == Canceled
      ensures pend == old(pend) - {id} && nextId == old(nextId) && done == old(done)
    {
      pend := pend - {id};
      outcome := Canceled;
    }

    /** `Close`. */
    method Close()
      modifies this
      ensures done && nextId == old(nextId) && pend == old(pend)
    {
      done := true;
    }

    /**
     * One frame of `readLoop`: requests go to the handler; a response wakes
     * the call registered under the response's numeric ID (0 for a string
     * ID), which is removed whether or not a call was waiting.
     */
    method Receive(msg: Option<Object>) returns (action: Action)
      requires Valid()
      modifies this
      ensures Valid() && nextId == old(nextId) && done == old(done)
      ensures action.Dispatch? ==>
                msg.Some? && Classify(msg.value) == RequestMessage
                && DecodeRequest(msg.value) == Some(action.req) && pend == old(pend)
      ensures action.Deliver? ==>
                action.id in old(pend) && pend == old(pend) - {action.id}
                && msg.Some? && DecodeResponse(msg.value) == Some(action.resp) && action.resp.id.num == action.id
      ensures action.Drop? ==>
                msg.Some? && DecodeResponse(msg.value).Some?
                && DecodeResponse(msg.value).value.id.num !in old(pend) && pend == old(pend)
      ensures action.Skip? ==> pend == old(pend)
    {
      if msg.None? {
        return Skip;
      }
      var obj := msg.value;
      match Classify(obj)
      case Unreadable =>
        action := Skip;
      case RequestMessage =>
        var req := DecodeRequest(obj);
        if req.None? {
          return Skip;
        }
        action := Dispatch(req.value);
      case ResponseMessage =>
        var resp := DecodeResponse(obj);
        if resp.None? {
          return Skip;
        }
        var key := resp.value.id.num;
        var waiting := key in pend;
        pend := pend - {key};
        if waiting {
          action := Deliver(key, resp.value);
        } else {
          action := Drop;
        }
    }

    /** The deferred cleanup of `readLoop`: close `done` and wake every waiting call. */
    method Shutdown() returns (woken: set<nat>)
      requires Valid()
      modifies this
      ensures Valid() && done && pend == {} && nextId == old(nextId)
      ensures woken == old(pend)
    {
      done := true;
      woken := pend;
      pend := {};
    }

    /**
     * `readLoop`: read frames from `input` until the reader fails, act on
     * each, then shut down. `parse` stands for decoding a body as JSON.
     * Each call that was waiting is either resolved by exactly one response
     * or woken by the cleanup, never both.
     */
    method ReadLoop(input: string, parse: string -> Option<Object>) returns (actions: seq<Action>, woken: set<nat>)
      requires Valid()
      modifies this
      ensures Valid() && done && pend == {} && nextId == old(nextId)
      ensures Delivered(actions) <= old(pend)
      ensures DeliveredOnce(actions)
      ensures woken == old(pend) - Delivered(actions)
    {
      var rest := input;
      actions := [];
      while true
        invariant Valid() && nextId == old(nextId)
        invariant Delivered(actions) <= old(pend) && DeliveredOnce(actions)
        invariant pend == old(pend) - Delivered(actions)
        decreases |rest|
      {
        var frame := ReadFrame(rest);
        if !frame.Frame? {
          break;
        }
        var action := Receive(parse(frame.body));
        DeliveredAppend(actions, action);
        actions := actions + [action];
        rest := frame.rest;
      }
      woken := Shutdown();
    }
  }
}
