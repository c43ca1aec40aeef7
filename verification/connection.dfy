/** `handle_client` after the TLS handshake: read the request, stop silently
    when nothing came, parse, generate and send the response. An exception
    escaping the worker is an outcome of its own. */
module Connection {
  import opened Wrappers
  import opened Text
  import opened Numbers
  import opened Framing
  import opened RequestParser
  import opened Responses
  import opened Router

  /** What escapes `handle_client`: `std::stoul` failing on the declared
      length, or `at` missing a field. */
  datatype Fault = BadLength(cause: ConversionError) | Missing(field: MissingField)

  /** The connection is closed without a reply, is abandoned by an uncaught
      exception, or receives the response bytes. */
  datatype Outcome = Closed | Crashed(fault: Fault) | Replied(response: Bytes)

  /** What `handle_client` does with the result of a request reader. */
  function Respond(read: Result<Bytes, ConversionError>, fsys: FileSystem, webRoot: Bytes): (o: Outcome)
    ensures o.Closed? <==> read == Success([])
    ensures o.Crashed? <==> read.Failure?
    ensures o.Crashed? ==> o.fault == BadLength(read.error)
    ensures o.Replied? ==> ParseResponse(o.response).Some?
  {
    match read
    case Failure(e) => Crashed(BadLength(e))
    case Success(request) =>
      if request == [] then Closed
      else
        var info := ParseRequest(request);
        match GenerateResponse(info, fsys, webRoot)
        case Failure(m) => Crashed(Missing(m))
        case Success(r) =>
          GeneratedReadsBack(info, fsys, webRoot);
          Replied(Serialize(r))
  }

  /** `handle_client`, `accepted` being the result of `SSL_accept`; the
      request is read by `ssl_read_request` as written. */
  function HandleClient(accepted: bool, records: seq<Bytes>, fsys: FileSystem, webRoot: Bytes): (o: Outcome)
    ensures o.Closed? <==> !accepted || Stream(records) == []
    ensures o.Crashed? ==> o.fault.BadLength?
    ensures o.Replied? ==> ParseResponse(o.response).Some?
  {
    if !accepted then Closed
    else
      EmptyStreamReadsNothing(records);
      Respond(ReadRequest(records), fsys, webRoot)
  }

  /** `handle_client` with the corrected body loop of `ReadRequestIntended`. */
  function HandleClientIntended(accepted: bool, records: seq<Bytes>, fsys: FileSystem, webRoot: Bytes): (o: Outcome)
    ensures o.Closed? <==> !accepted || Stream(records) == []
    ensures o.Crashed? ==> o.fault.BadLength?
    ensures o.Replied? ==> ParseResponse(o.response).Some?
  {
    if !accepted then Closed
    else
      IntendedEmptyStreamReadsNothing(records);
      Respond(ReadRequestIntended(records), fsys, webRoot)
  }

  /** The request read is empty exactly when the peer sent nothing, and a
      silent peer cannot make the length conversion fail. */
  lemma EmptyStreamReadsNothing(records: seq<Bytes>)
    ensures Stream(records) == [] ==> ReadRequest(records) == Success([])
    ensures ReadRequest(records).Success? ==> (ReadRequest(records).value == [] <==> Stream(records) == [])
  {
    HeadersNonEmpty(records);
  }

  /** The same for the corrected reader. */
  lemma IntendedEmptyStreamReadsNothing(records: seq<Bytes>)
    ensures Stream(records) == [] ==> ReadRequestIntended(records) == Success([])
    ensures ReadRequestIntended(records).Success? ==> (ReadRequestIntended(records).value == [] <==> Stream(records) == [])
  {
    HeadersNonEmpty(records);
  }

  /** The header loop reads something iff the peer sent something, and
      finds no label in nothing. */
  lemma HeadersNonEmpty(records: seq<Bytes>)
    ensures var h := ReadHeaders(records, []);
            (h.data == [] <==> Stream(records) == [])
            && (Stream(records) == [] ==> DeclaredLength(h.data) == Success(0))
  {
    var h := ReadHeaders(records, []);
    if Stream(records) == [] {
      assert h.data == [];
      assert Find([], LengthLabel, 0).None?;
    } else {
      var (chunk, rest) := SslRead(records, BufferSize);
      assert chunk != [];
      assert |h.data| >= |chunk| by {
        assert [] + chunk == chunk;
      }
    }
  }

  /** The reply is the serialized answer to the request `ssl_read_request`
      returned. */
  lemma RepliesWithAnswer(accepted: bool, records: seq<Bytes>, fsys: FileSystem, webRoot: Bytes)
    requires HandleClient(accepted, records, fsys, webRoot).Replied?
    ensures accepted && ReadRequest(records).Success?
    ensures var info := ParseRequest(ReadRequest(records).value);
            && "method" in info && "path" in info
            && exists r :: Answers(info, fsys, webRoot, r) && HandleClient(accepted, records, fsys, webRoot).response == Serialize(r)
  {
    var request := ReadRequest(records).value;
    var info := ParseRequest(request);
    GenerateAnswers(info, fsys, webRoot);
    var r := GenerateResponse(info, fsys, webRoot).value;
    assert Answers(info, fsys, webRoot, r);
  }

  /** A non-empty request that `ssl_read_request` returned is always
      answered. */
  lemma HandleClientReplies(records: seq<Bytes>, request: Bytes, fsys: FileSystem, webRoot: Bytes)
    requires ReadRequest(records) == Success(request) && request != []
    ensures GenerateResponse(ParseRequest(request), fsys, webRoot).Success?
    ensures HandleClient(true, records, fsys, webRoot)
         == Replied(Serialize(GenerateResponse(ParseRequest(request), fsys, webRoot).value))
  {
  }

  /** A request without a body is handled alike by the server as written and
      by the corrected one: the two differ only in the body loop. */
  lemma PipelinesAgreeWithoutBody(accepted: bool, records: seq<Bytes>, fsys: FileSystem, webRoot: Bytes)
    requires DeclaredLength(ReadHeaders(records, []).data) == Success(0)
    ensures HandleClient(accepted, records, fsys, webRoot) == HandleClientIntended(accepted, records, fsys, webRoot)
  {
    ReadersAgreeWithoutBody(records);
  }
}
