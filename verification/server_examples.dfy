/** A whole exchange: a client sends `GET /about` with one header in a
    single record, and the server replies with the fixed about page. */
module ServerExamples {
  import opened Wrappers
  import opened Text
  import opened Numbers
  import opened Framing
  import opened RequestParser
  import opened Responses
  import opened Router
  import opened Connection

  const AboutFields: seq<Field> := [Field("Host", "localhost:8080")]

  const AboutRequest: Bytes := RequestText("GET", "/about", "HTTP/1.1", AboutFields, [])

  /** A text without a `C` holds no `Content-Length:`. */
  lemma NoLabelWithoutC(s: Bytes)
    requires forall i :: 0 <= i < |s| ==> s[i] != 'C'
    ensures Find(s, LengthLabel, 0).None?
  {
    forall j | 0 <= j < |s|
      ensures !MatchesAt(s, LengthLabel, j)
    {
      NoMatchAt(s, LengthLabel, j);
    }
  }

  lemma AboutRequestShape()
    ensures 0 < |AboutRequest| <= BufferSize
    ensures Contains(AboutRequest, Terminator)
  {
    var f := AboutFields[0];
    assert AboutFields[1..] == [];
    var a := "GET" + " " + "/about" + " " + "HTTP/1.1" + "\r\n" + f.name + ":" + " " + f.value;
    assert AboutRequest == a + Terminator;
    assert MatchesAt(AboutRequest, Terminator, |a|);
    ContainsIff(AboutRequest, Terminator);
  }

  lemma AboutRequestNoC()
    ensures forall i :: 0 <= i < |AboutRequest| ==> AboutRequest[i] != 'C'
  {
  }

  /** The whole request arrives in one record: the server reads exactly it,
      and so would the corrected reader, there being no body. */
  lemma AboutRequestRead()
    ensures ReadRequest([AboutRequest]) == Success(AboutRequest)
    ensures ReadRequestIntended([AboutRequest]) == Success(AboutRequest)
    ensures ReadHeaders([AboutRequest], []).data == AboutRequest && DeclaredLength(AboutRequest) == Success(0)
  {
    AboutRequestShape();
    AboutRequestNoC();
    OneRecordHeaders(AboutRequest, []);
    assert [AboutRequest] + [] == [AboutRequest];
    NoLabelWithoutC(AboutRequest);
    ReadersAgreeWithoutBody([AboutRequest]);
  }

  lemma AboutPartsPlain()
    ensures IsWord("GET") && IsWord("/about") && IsWord("HTTP/1.1")
    ensures forall i :: 0 <= i < |AboutFields| ==> PlainField(AboutFields[i])
  {
    PlainFieldOf("Host", "localhost:8080");
  }

  lemma AboutStore(m: Request)
    requires m == Store(LineMap("GET", "/about", "HTTP/1.1"), AboutFields)
    ensures "method" in m && m["method"] == "GET" && "path" in m && m["path"] == "/about"
  {
    var m0 := LineMap("GET", "/about", "HTTP/1.1");
    StoreKeeps(m0, AboutFields, "method");
    StoreKeeps(m0, AboutFields, "path");
  }

  lemma AboutParsed(name: Bytes)
    requires name != "body"
    ensures var m := Store(LineMap("GET", "/about", "HTTP/1.1"), AboutFields);
            (name in ParseRequest(AboutRequest) <==> name in m)
            && (name in m ==> ParseRequest(AboutRequest)[name] == m[name])
  {
    AboutPartsPlain();
    ParseRequestText(AboutRequest, "GET", "/about", "HTTP/1.1", AboutFields, []);
  }

  lemma AboutRequestParsed()
    ensures var info := ParseRequest(AboutRequest);
            "method" in info && info["method"] == "GET" && "path" in info && info["path"] == "/about"
  {
    AboutStore(Store(LineMap("GET", "/about", "HTTP/1.1"), AboutFields));
    AboutParsed("method");
    AboutParsed("path");
  }

  /** The exchange end to end: the reply is the about page, whatever the
      file system holds. */
  lemma AboutExchange(fsys: FileSystem, webRoot: Bytes)
    ensures HandleClient(true, [AboutRequest], fsys, webRoot) == Replied(Serialize(AboutResponse))
    ensures HandleClientIntended(true, [AboutRequest], fsys, webRoot) == Replied(Serialize(AboutResponse))
  {
    AboutRequestRead();
    AboutRequestParsed();
    var info := ParseRequest(AboutRequest);
    GenerateAnswers(info, fsys, webRoot);
    assert Target(info["path"], webRoot) == None;
    HandleClientReplies([AboutRequest], AboutRequest, fsys, webRoot);
    PipelinesAgreeWithoutBody(true, [AboutRequest], fsys, webRoot);
  }

  /** A request line without the letter `C`. */
  const BadLengthLine: Bytes := "GET / HTTP/1.1\r\n"

  /** A request whose `Content-Length:` header has no value. */
  const BadLengthRequest: Bytes := BadLengthLine + LengthLabel + "\r\n" + "\r\n"

  lemma BadLengthShape()
    ensures 0 < |BadLengthRequest| <= BufferSize
    ensures Contains(BadLengthRequest, Terminator)
  {
    var k := |BadLengthLine| + |LengthLabel|;
    assert BadLengthRequest[k..k + 4] == Terminator;
    assert MatchesAt(BadLengthRequest, Terminator, k);
    ContainsIff(BadLengthRequest, Terminator);
  }

  lemma BadLengthDeclared()
    ensures DeclaredLength(BadLengthRequest) == Failure(InvalidArgument)
  {
    forall j | 0 <= j < |BadLengthLine|
      ensures !MatchesAt(BadLengthRequest, LengthLabel, j)
    {
      assert BadLengthRequest[j] == BadLengthLine[j];
      NoMatchAt(BadLengthRequest, LengthLabel, j);
    }
    EmptyLengthInvalid(BadLengthLine, "\r\n");
  }

  /** A `Content-Length:` header without a value makes `std::stoul` throw
      inside `ssl_read_request`; nothing catches it, so the connection gets
      no reply. */
  lemma BadLengthCrashes(fsys: FileSystem, webRoot: Bytes)
    ensures HandleClient(true, [BadLengthRequest], fsys, webRoot) == Crashed(BadLength(InvalidArgument))
  {
    BadLengthShape();
    OneRecordHeaders(BadLengthRequest, []);
    assert [BadLengthRequest] + [] == [BadLengthRequest];
    BadLengthDeclared();
  }
}
