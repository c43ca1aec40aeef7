/** The responses the server writes. Every handler builds the same five-line
    head — status line, `Content-Length`, `Content-Type`, `Connection: close`,
    blank line — followed by the body; a `Response` holds the parts that vary
    and `Serialize` lays them out. `ParseResponse` is an independent reader of
    that layout, used to state what the bytes on the wire mean. */
module Responses {
  import opened Wrappers
  import opened Text
  import opened Numbers
  import opened Framing

  datatype Status = Ok | NotFound

  datatype Response = Response(status: Status, contentType: Bytes, body: Bytes)

  function StatusText(s: Status): Bytes {
    match s
    case Ok => "HTTP/1.1 200 OK"
    case NotFound => "HTTP/1.1 404 Not Found"
  }

  /** A text line as the server ends it, with CRLF. */
  function Line(s: Bytes): Bytes {
    s + "\r\n"
  }

  function Lines(ls: seq<Bytes>): Bytes {
    if ls == [] then [] else Line(ls[0]) + Lines(ls[1..])
  }

  /** The five head lines every handler writes, `Content-Length` being the
      decimal size of the body. */
  function Head(r: Response): seq<Bytes> {
    [ StatusText(r.status), "Content-Length: " + ToDecimal(|r.body|),
      "Content-Type: " + r.contentType, "Connection: close", "" ]
  }

  /** The response as the handlers assemble it. */
  function Serialize(r: Response): Bytes {
    Lines(Head(r)) + r.body
  }

  predicate NoCr(s: Bytes) {
    forall i :: 0 <= i < |s| ==> s[i] != '\r'
  }

  /** The next CRLF-terminated line of `t` and what follows it. */
  function NextLine(t: Bytes): (r: Option<(Bytes, Bytes)>)
    ensures r.Some? ==> NoCr(r.value.0) && t == Line(r.value.0) + r.value.1
  {
    var (a, b) := SplitAt(t, '\r');
    if '\r' in t && b != [] && b[0] == '\n' then
      assert t == a + "\r\n" + b[1..] by {
        assert b == "\n" + b[1..];
      }
      Some((a, b[1..]))
    else None
  }

  lemma NextLineOf(a: Bytes, rest: Bytes)
    requires NoCr(a)
    ensures NextLine(Line(a) + rest) == Some((a, rest))
  {
    assert Line(a) + rest == a + ['\r'] + ("\n" + rest);
    SplitAtConcat(a, '\r', "\n" + rest);
    assert ("\n" + rest)[1..] == rest;
  }

  /** The first `k` CRLF-terminated lines of `t` and what follows them. */
  function NextLines(t: Bytes, k: nat): (r: Option<(seq<Bytes>, Bytes)>)
    ensures r.Some? ==> |r.value.0| == k && t == Lines(r.value.0) + r.value.1
    ensures r.Some? ==> forall i :: 0 <= i < k ==> NoCr(r.value.0[i])
    decreases k
  {
    if k == 0 then Some(([], t))
    else
      match NextLine(t)
      case None => None
      case Some((line, rest)) =>
        match NextLines(rest, k - 1)
        case None => None
        case Some((ls, body)) =>
          LinesCons(line, ls);
          Some(([line] + ls, body))
  }

  lemma LinesCons(line: Bytes, ls: seq<Bytes>)
    ensures Lines([line] + ls) == Line(line) + Lines(ls)
  {
    assert ([line] + ls)[0] == line && ([line] + ls)[1..] == ls;
  }

  lemma {:induction false} NextLinesOf(ls: seq<Bytes>, rest: Bytes)
    requires forall i :: 0 <= i < |ls| ==> NoCr(ls[i])
    ensures NextLines(Lines(ls) + rest, |ls|) == Some((ls, rest))
  {
    if ls != [] {
      assert Lines(ls) + rest == Line(ls[0]) + (Lines(ls[1..]) + rest);
      NextLineOf(ls[0], Lines(ls[1..]) + rest);
      NextLinesOf(ls[1..], rest);
      assert [ls[0]] + ls[1..] == ls;
    } else {
      assert Lines(ls) + rest == rest;
    }
  }

  /** The text after the prefix `p`, when `line` starts with it. */
  function After(p: Bytes, line: Bytes): (r: Option<Bytes>)
    ensures r.Some? <==> exists v :: line == p + v
    ensures r.Some? ==> line == p + r.value
  {
    if |p| <= |line| && line[..|p|] == p then
      assert line == p + line[|p|..];
      Some(line[|p|..])
    else
      assert forall v :: line == p + v ==> line[..|p|] == p;
      None
  }

  lemma AfterOf(p: Bytes, v: Bytes)
    ensures After(p, p + v) == Some(v)
  {
    assert (p + v)[..|p|] == p && (p + v)[|p|..] == v;
  }

  function StatusOf(line: Bytes): (r: Option<Status>)
    ensures r.Some? ==> StatusText(r.value) == line
    ensures r.None? ==> line != StatusText(Ok) && line != StatusText(NotFound)
  {
    if line == StatusText(Ok) then Some(Ok)
    else if line == StatusText(NotFound) then Some(NotFound)
    else None
  }

  /** What the five head lines and the body say, when they follow the layout:
      the fixed lines in place, a canonical decimal length, and exactly that
      many body bytes. */
  function ReadHead(ls: seq<Bytes>, body: Bytes): Option<Response>
    requires |ls| == 5
  {
    var status :- StatusOf(ls[0]);
    var digits :- After("Content-Length: ", ls[1]);
    var ct :- After("Content-Type: ", ls[2]);
    if ls[3] == "Connection: close" && ls[4] == [] && digits != [] && AllDigits(digits)
       && ToDecimal(ValueOf(digits)) == digits && ValueOf(digits) == |body|
    then Some(Response(status, ct, body))
    else None
  }

  /** A reader of the response layout, independent of `Serialize`. */
  function ParseResponse(t: Bytes): Option<Response> {
    var (ls, body) :- NextLines(t, 5);
    ReadHead(ls, body)
  }

  lemma PrefixedNoCr(p: Bytes, v: Bytes)
    requires NoCr(p) && NoCr(v)
    ensures NoCr(p + v)
  {
    assert forall i :: |p| <= i < |p + v| ==> (p + v)[i] == v[i - |p|];
  }

  lemma HeadNoCr(r: Response)
    requires NoCr(r.contentType)
    ensures forall i :: 0 <= i < |Head(r)| ==> NoCr(Head(r)[i])
  {
    var d := ToDecimal(|r.body|);
    assert NoCr(d) by {
      assert forall i :: 0 <= i < |d| ==> IsDigit(d[i]);
    }
    PrefixedNoCr("Content-Length: ", d);
    PrefixedNoCr("Content-Type: ", r.contentType);
  }

  lemma ReadHeadOf(r: Response)
    ensures ReadHead(Head(r), r.body) == Some(r)
  {
    AfterOf("Content-Length: ", ToDecimal(|r.body|));
    AfterOf("Content-Type: ", r.contentType);
  }

  /** The reader recovers every response whose content type stays on its line. */
  lemma ParseSerialize(r: Response)
    requires NoCr(r.contentType)
    ensures ParseResponse(Serialize(r)) == Some(r)
  {
    HeadNoCr(r);
    NextLinesOf(Head(r), r.body);
    ReadHeadOf(r);
  }

  /** Conversely, whatever the reader accepts is exactly the serialization of
      what it returns: the layout has one spelling per response. */
  lemma SerializeParse(t: Bytes)
    ensures ParseResponse(t).Some? ==> Serialize(ParseResponse(t).value) == t
    ensures ParseResponse(t).Some? ==> NoCr(ParseResponse(t).value.contentType)
  {
    if ParseResponse(t).Some? {
      var (ls, body) := NextLines(t, 5).value;
      ReadHeadHead(ls, body);
    }
  }

  /** Head lines the reader accepts are the head of what it returns. */
  lemma ReadHeadHead(ls: seq<Bytes>, body: Bytes)
    requires |ls| == 5 && NoCr(ls[2]) && ReadHead(ls, body).Some?
    ensures Head(ReadHead(ls, body).value) == ls && ReadHead(ls, body).value.body == body
    ensures NoCr(ReadHead(ls, body).value.contentType)
  {
    var r := ReadHead(ls, body).value;
    assert ls[1] == "Content-Length: " + ToDecimal(|r.body|);
    assert ls[2] == "Content-Type: " + r.contentType;
    assert forall i :: 0 <= i < |r.contentType| ==> r.contentType[i] == ls[2][i + 14];
  }

  /** The status line carries no `C`, so no `Content-Length:` starts in it. */
  lemma StatusLineNoLabel(s: Status, rest: Bytes)
    ensures forall j :: 0 <= j < |Line(StatusText(s))| ==> !MatchesAt(Line(StatusText(s)) + rest, LengthLabel, j)
  {
    var pre := Line(StatusText(s));
    forall j | 0 <= j < |pre|
      ensures !MatchesAt(pre + rest, LengthLabel, j)
    {
      assert (pre + rest)[j] == pre[j];
      NoMatchAt(pre + rest, LengthLabel, j);
    }
  }

  lemma SerializeLayout(r: Response)
    ensures Serialize(r) == Line(StatusText(r.status)) + LengthLabel + " " + ToDecimal(|r.body|) + "\r\n"
                              + (Lines(Head(r)[2..]) + r.body)
  {
    var h := Head(r);
    assert Lines(h) == Line(h[0]) + (Line(h[1]) + Lines(h[2..])) by {
      assert h[1..][1..] == h[2..];
    }
    assert Line(h[1]) == LengthLabel + " " + ToDecimal(|r.body|) + "\r\n";
  }

  /** A client that frames the response as the server frames requests finds
      the body length the head declares. */
  lemma ResponseDeclaresBodyLength(r: Response)
    requires |r.body| <= ULongMax
    ensures DeclaredLength(Serialize(r)) == Success(|r.body|)
  {
    var pre := Line(StatusText(r.status));
    var d := ToDecimal(|r.body|);
    var post := Lines(Head(r)[2..]) + r.body;
    SerializeLayout(r);
    StatusLineNoLabel(r.status, LengthLabel + " " + d + "\r\n" + post);
    assert pre + LengthLabel + " " + d + "\r\n" + post == pre + (LengthLabel + " " + d + "\r\n" + post);
    DeclaredLengthOf(pre, |r.body|, post);
  }

  const HtmlType: Bytes := "text/html"

  const NotFoundBody: Bytes := "<html><body><h1>404 Not Found</h1></body></html>"

  const AboutBody: Bytes := "<html><body><h1>About Us</h1><p>This is the about page.</p></body></html>"

  const EchoOpen: Bytes := "<html><body><h1>POST Data Received</h1><pre>"

  const EchoClose: Bytes := "</pre></body></html>"

  /** `not_found_response`. */
  const NotFoundResponse: Response := Response(NotFound, HtmlType, NotFoundBody)

  /** `handle_about`. */
  const AboutResponse: Response := Response(Ok, HtmlType, AboutBody)

  /** The two fixed pages declare the lengths the source's literals have. */
  lemma FixedPageLengths()
    ensures ToDecimal(|NotFoundBody|) == "48"
    ensures ToDecimal(|AboutBody|) == "73"
  {
    assert |NotFoundBody| == 48 && |AboutBody| == 73;
    assert ToDecimal(4) == "4" && ToDecimal(7) == "7";
  }

  /** The data a POST echo page carries between its fixed opening and closing. */
  function EchoedData(body: Bytes): (r: Option<Bytes>)
    ensures r.Some? ==> body == EchoOpen + r.value + EchoClose
  {
    if |EchoOpen| + |EchoClose| <= |body| && body[..|EchoOpen|] == EchoOpen
       && body[|body| - |EchoClose|..] == EchoClose
    then
      var data := body[|EchoOpen|..|body| - |EchoClose|];
      assert body == body[..|EchoOpen|] + data + body[|body| - |EchoClose|..];
      Some(data)
    else None
  }

  /** `handle_post` given the request's body: the received data, unescaped,
      inside a fixed HTML page. */
  function PostResponse(data: Bytes): (r: Response)
    ensures r.status == Ok && r.contentType == HtmlType
    ensures EchoedData(r.body) == Some(data)
    ensures |r.body| == |data| + 64
  {
    var body := EchoOpen + data + EchoClose;
    assert body[..|EchoOpen|] == EchoOpen;
    assert body[|body| - |EchoClose|..] == EchoClose;
    assert body[|EchoOpen|..|body| - |EchoClose|] == data;
    Response(Ok, HtmlType, body)
  }
}
