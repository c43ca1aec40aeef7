/** server.cpp `ssl_read_request`: how the server cuts one request out of
    the TLS connection. The peer is modelled by the application-data records
    it sends, in order, after which the connection is closed; `SSL_read`
    returns bytes from one record at a time, never more than asked for, and
    nothing (a result `<= 0`) once no data is left. */
module Framing {
  import opened Wrappers
  import opened Text
  import opened Numbers

  /** The size of the read buffer. */
  const BufferSize: nat := 2048

  /** The end of the header section. */
  const Terminator: Bytes := "\r\n\r\n"

  /** The label searched for in the received text. */
  const LengthLabel: Bytes := "Content-Length:"

  /** All the bytes the records still hold, in order. */
  function Stream(records: seq<Bytes>): Bytes {
    if records == [] then [] else records[0] + Stream(records[1..])
  }

  /** One `SSL_read(ssl, buffer, num)`: the bytes it returns (none for a
      result `<= 0`) and the records left unread. */
  function SslRead(records: seq<Bytes>, num: nat): (r: (Bytes, seq<Bytes>))
    requires num > 0
    ensures |r.0| <= num
    ensures r.0 + Stream(r.1) == Stream(records)
    ensures r.0 == [] <==> Stream(records) == []
    decreases |records|
  {
    if records == [] then ([], [])
    else if records[0] == [] then SslRead(records[1..], num)
    else if |records[0]| <= num then (records[0], records[1..])
    else
      assert records[0] == records[0][..num] + records[0][num..];
      (records[0][..num], [records[0][num..]] + records[1..])
  }

  /** The text received so far and the records not yet read. */
  datatype Phase = Phase(data: Bytes, rest: seq<Bytes>)

  /** The header loop: read into the buffer and append, until a read returns
      nothing or the text received so far contains the terminator. */
  function ReadHeaders(records: seq<Bytes>, acc: Bytes): (r: Phase)
    ensures r.data + Stream(r.rest) == acc + Stream(records)
    ensures |acc| <= |r.data|
    ensures Contains(r.data, Terminator) || Stream(r.rest) == []
    decreases |Stream(records)|
  {
    var (chunk, rest) := SslRead(records, BufferSize);
    if chunk == [] then Phase(acc, rest)
    else if Contains(acc + chunk, Terminator) then Phase(acc + chunk, rest)
    else ReadHeaders(rest, acc + chunk)
  }

  /** A text without the terminator that gains it by appending `c` has it
      ending inside `c`. */
  lemma FirstTerminatorInLastChunk(p: Bytes, c: Bytes)
    requires !Contains(p, Terminator) && Contains(p + c, Terminator)
    ensures Find(p + c, Terminator, 0).value + |Terminator| > |p|
  {
    var k := Find(p + c, Terminator, 0).value;
    MatchInPrefix(p, c, Terminator, k);
    ContainsIff(p, Terminator);
  }

  /** A match that ends within `p` is a match in `p` alone. */
  lemma MatchInPrefix(p: Bytes, c: Bytes, x: Bytes, k: nat)
    ensures k + |x| <= |p| && MatchesAt(p + c, x, k) ==> MatchesAt(p, x, k)
  {
    if k + |x| <= |p| {
      assert (p + c)[k..k + |x|] == p[k..k + |x|];
    }
  }

  /** The header loop stops at the first read that completes the terminator:
      less than one buffer of text is taken past the end of the header
      section. */
  lemma {:induction false} HeadersStopAtTerminator(records: seq<Bytes>, acc: Bytes)
    requires !Contains(acc, Terminator)
    ensures var r := ReadHeaders(records, acc);
            Contains(r.data, Terminator) ==>
              |r.data| - (Find(r.data, Terminator, 0).value + |Terminator|) < BufferSize
    decreases |Stream(records)|
  {
    var (chunk, rest) := SslRead(records, BufferSize);
    if chunk != [] {
      if Contains(acc + chunk, Terminator) {
        FirstTerminatorInLastChunk(acc, chunk);
      } else {
        HeadersStopAtTerminator(rest, acc + chunk);
      }
    }
  }

  /** The body loop: ask for what is missing, at most a buffer at a time,
      until `length` bytes came or a read returns nothing. */
  function ReadBody(records: seq<Bytes>, total: nat, length: nat, acc: Bytes): (r: Bytes)
    requires total <= length
    ensures |r| == |acc| + Min(length - total, |Stream(records)|)
    ensures r == acc + Stream(records)[..|r| - |acc|]
    decreases length - total
  {
    if total >= length then acc
    else
      var (chunk, rest) := SslRead(records, Min(BufferSize, length - total));
      if chunk == [] then acc
      else
        var r := ReadBody(rest, total + |chunk|, length, acc + chunk);
        BodyStep(acc, chunk, Stream(rest), r, length - total);
        r
  }

  /** One body read: what the rest of the loop appends after `chunk`. */
  lemma BodyStep(acc: Bytes, chunk: Bytes, more: Bytes, r: Bytes, need: nat)
    requires 0 < |chunk| <= need
    requires |r| == |acc + chunk| + Min(need - |chunk|, |more|)
    requires r == (acc + chunk) + more[..|r| - |acc + chunk|]
    ensures |r| == |acc| + Min(need, |chunk + more|)
    ensures r == acc + (chunk + more)[..|r| - |acc|]
  {
    assert (chunk + more)[..|r| - |acc|] == chunk + more[..|r| - |acc + chunk|];
  }

  function Min(a: nat, b: nat): nat {
    if a <= b then a else b
  }

  /** The label ends before the line end found after it, so the value
      between them is well defined. */
  lemma LabelBeforeLineEnd(data: Bytes, pos: nat, e: nat)
    requires MatchesAt(data, LengthLabel, pos) && MatchesAt(data, "\r\n", e) && pos <= e
    ensures pos + |LengthLabel| <= e
  {
    assert data[e] == "\r\n"[0];
    assert forall k :: pos <= k < pos + |LengthLabel| ==> data[k] == LengthLabel[k - pos];
    assert forall k :: 0 <= k < |LengthLabel| ==> LengthLabel[k] != '\r';
  }

  /** The declared body length: the text after the first `Content-Length:`
      up to the next CRLF (or the end), read by `std::stoul`; 0 without the
      label. The label is searched in everything received, body included. */
  function DeclaredLength(data: Bytes): (r: Result<nat, ConversionError>)
    ensures r.Success? ==> r.value <= ULongMax
    ensures Find(data, LengthLabel, 0).None? ==> r == Success(0)
    ensures LengthText(data).Some? ==> r == Stoul(LengthText(data).value)
    ensures r.Failure? <==> LengthText(data).Some? && Stoul(LengthText(data).value).Failure?
  {
    match LengthText(data)
    case None => Success(0)
    case Some(v) => Stoul(v)
  }

  /** The text `DeclaredLength` converts: after the first label, up to the
      next CRLF or the end (`substr(pos + 15, end_of_line - pos - 15)`, where
      a missing line end makes the count wrap to "all the rest"). */
  function LengthText(data: Bytes): (r: Option<Bytes>)
    ensures r.None? <==> Find(data, LengthLabel, 0).None?
    ensures Find(data, LengthLabel, 0).Some? ==>
              var pos := Find(data, LengthLabel, 0).value;
              pos + |LengthLabel| <= |data|
              && (Find(data, "\r\n", pos).None? ==> r == Some(data[pos + |LengthLabel|..]))
  {
    match Find(data, LengthLabel, 0)
    case None => None
    case Some(pos) =>
      match Find(data, "\r\n", pos)
      case None => Some(data[pos + |LengthLabel|..])
      case Some(e) => LabelBeforeLineEnd(data, pos, e); Some(data[pos + |LengthLabel|..e])
  }

  /** Where the body starts in the received text: just after the first
      terminator, or at its end when there is none. */
  function BodyStart(data: Bytes): (k: nat)
    ensures k <= |data|
    ensures Contains(data, Terminator) ==>
              && |Terminator| <= k && MatchesAt(data, Terminator, k - |Terminator|)
              && forall j :: 0 <= j < k - |Terminator| ==> !MatchesAt(data, Terminator, j)
    ensures !Contains(data, Terminator) ==> k == |data|
  {
    match Find(data, Terminator, 0)
    case None => |data|
    case Some(t) => t + |Terminator|
  }

  /** The bytes still to read when `got` of a declared `n` are in. */
  function Outstanding(n: nat, got: nat): nat {
    if n > got then n - got else 0
  }

  /** The body loop after the header phase `h`, counting `got` body bytes as
      already received: it reads only when some are missing. */
  function BodyLoop(h: Phase, got: nat, n: nat): (r: Bytes)
    ensures |r| == |h.data| + Min(Outstanding(n, got), |Stream(h.rest)|)
    ensures r == h.data + Stream(h.rest)[..|r| - |h.data|]
  {
    if n > got then ReadBody(h.rest, got, n, h.data) else h.data
  }

  /** The body loop as written: `total_bytes_read` starts at 0 however many
      body bytes came with the header section `h`, so the loop asks for all
      `n` declared bytes again. */
  function WrittenBody(h: Phase, n: nat): (r: Bytes)
    ensures |h.data| <= |r| <= |h.data + Stream(h.rest)| && r == (h.data + Stream(h.rest))[..|r|]
    ensures |r| == |h.data| + Min(n, |Stream(h.rest)|)
    ensures var k := BodyStart(h.data);
            k < |h.data| && k + n < |h.data + Stream(h.rest)| ==> |r| > k + n
  {
    var r := BodyLoop(h, 0, n);
    assert (h.data + Stream(h.rest))[..|r|] == h.data + Stream(h.rest)[..|r| - |h.data|];
    r
  }

  /** `ssl_read_request`: the header loop, the declared length, the body
      loop. A `std::stoul` failure is the error result. */
  function ReadRequest(records: seq<Bytes>): (r: Result<Bytes, ConversionError>)
    ensures r.Success? ==> |r.value| <= |Stream(records)| && r.value == Stream(records)[..|r.value|]
    ensures r.Failure? <==> DeclaredLength(ReadHeaders(records, []).data).Failure?
    ensures var h := ReadHeaders(records, []);
            r.Success? ==> |r.value| == |h.data| + Min(DeclaredLength(h.data).value, |Stream(h.rest)|)
    ensures var h := ReadHeaders(records, []);
            var k := BodyStart(h.data);
            r.Success? && k < |h.data| && k + DeclaredLength(h.data).value < |Stream(records)| ==>
              |r.value| > k + DeclaredLength(h.data).value
  {
    var h := ReadHeaders(records, []);
    assert h.data + Stream(h.rest) == Stream(records) by {
      assert [] + Stream(records) == Stream(records);
    }
    match DeclaredLength(h.data)
    case Failure(e) => Failure(e)
    case Success(n) => Success(WrittenBody(h, n))
  }

  /** The body loop as the code evidently means it: the body bytes that came
      with the header section `h` count towards the declared length `n`, so
      only the missing ones are read. */
  function IntendedBody(h: Phase, n: nat): (r: Bytes)
    ensures |h.data| <= |r| <= |h.data + Stream(h.rest)| && r == (h.data + Stream(h.rest))[..|r|]
    ensures var k := BodyStart(h.data);
            |h.data| <= k + n <= |h.data + Stream(h.rest)| ==> |r| == k + n
  {
    var k := BodyStart(h.data);
    var r := BodyLoop(h, |h.data| - k, n);
    DeclaredBodyLength(|h.data|, k, n, |Stream(h.rest)|, |h.data + Stream(h.rest)|, |r|);
    assert (h.data + Stream(h.rest))[..|r|] == h.data + Stream(h.rest)[..|r| - |h.data|];
    r
  }

  /** `ssl_read_request` with the intended body loop. */
  function ReadRequestIntended(records: seq<Bytes>): (r: Result<Bytes, ConversionError>)
    ensures r.Success? ==> |r.value| <= |Stream(records)| && r.value == Stream(records)[..|r.value|]
    ensures r.Failure? <==> DeclaredLength(ReadHeaders(records, []).data).Failure?
    ensures var h := ReadHeaders(records, []);
            var k := BodyStart(h.data);
            r.Success? && |h.data| <= k + DeclaredLength(h.data).value <= |Stream(records)| ==>
              |r.value| == k + DeclaredLength(h.data).value
  {
    var h := ReadHeaders(records, []);
    assert h.data + Stream(h.rest) == Stream(records) by {
      assert [] + Stream(records) == Stream(records);
    }
    match DeclaredLength(h.data)
    case Failure(e) => Failure(e)
    case Success(n) => Success(IntendedBody(h, n))
  }

  /** Without a declared body the two readers return the same bytes: the
      header section as read. */
  lemma ReadersAgreeWithoutBody(records: seq<Bytes>)
    requires DeclaredLength(ReadHeaders(records, []).data) == Success(0)
    ensures ReadRequest(records) == ReadRequestIntended(records) == Success(ReadHeaders(records, []).data)
  {
  }

  /** The length arithmetic of the intended body loop. */
  lemma DeclaredBodyLength(len: nat, k: nat, n: nat, restLen: nat, total: nat, got: nat)
    requires k <= len && restLen == total - len
    requires got == len + Min(Outstanding(n, len - k), restLen)
    ensures len <= k + n <= total ==> got == k + n
  {
  }

  /** `find` returns the first occurrence. */
  lemma FindFirst(s: Bytes, pat: Bytes, from: nat, k: nat)
    requires from <= k && MatchesAt(s, pat, k)
    requires forall j :: from <= j < k ==> !MatchesAt(s, pat, j)
    ensures Find(s, pat, from) == Some(k)
  {
  }

  lemma NoMatchAt(s: Bytes, pat: Bytes, j: nat)
    requires pat != [] && j < |s| && s[j] != pat[0]
    ensures !MatchesAt(s, pat, j)
  {
    if j + |pat| <= |s| {
      assert s[j..j + |pat|][0] == s[j];
    }
  }

  /** No CRLF starts inside `Content-Length: <digits>`. */
  lemma NoLineEndInLength(data: Bytes, pos: nat, x: Bytes, d: Bytes)
    requires x == LengthLabel + " " + d && AllDigits(d)
    requires pos + |x| <= |data| && data[pos..pos + |x|] == x
    ensures forall j :: pos <= j < pos + |x| ==> !MatchesAt(data, "\r\n", j)
  {
    forall j | pos <= j < pos + |x|
      ensures !MatchesAt(data, "\r\n", j)
    {
      assert data[j] == x[j - pos];
      if j - pos < |LengthLabel| {
        assert x[j - pos] == LengthLabel[j - pos];
      } else if j - pos > |LengthLabel| {
        assert x[j - pos] == d[j - pos - |LengthLabel| - 1];
      }
      NoMatchAt(data, "\r\n", j);
    }
  }

  /** The value `DeclaredLength` converts, for a label at `pos` and the line
      end at `e`. */
  lemma DeclaredLengthAt(data: Bytes, pos: nat, e: nat)
    requires Find(data, LengthLabel, 0) == Some(pos) && Find(data, "\r\n", pos) == Some(e)
    ensures pos + |LengthLabel| <= e
    ensures LengthText(data) == Some(data[pos + |LengthLabel|..e])
  {
    LabelBeforeLineEnd(data, pos, e);
  }

  lemma DropPrefix(a: Bytes, b: Bytes)
    ensures (a + b)[|a|..] == b
  {
  }

  /** The text after a `Content-Length:` label at `pos`, the first one, up to
      the CRLF that ends `Content-Length: <digits>`. */
  lemma LengthTextAtLine(data: Bytes, pos: nat, d: Bytes)
    requires AllDigits(d)
    requires var x := LengthLabel + " " + d;
             pos + |x| + 2 <= |data| && data[pos..pos + |x|] == x && data[pos + |x|..pos + |x| + 2] == "\r\n"
    requires forall j :: 0 <= j < pos ==> !MatchesAt(data, LengthLabel, j)
    ensures LengthText(data) == Some(" " + d)
  {
    var x := LengthLabel + " " + d;
    var e := pos + |x|;
    var w := data[pos..e];
    assert data[pos..pos + |LengthLabel|] == w[..|LengthLabel|];
    assert x[..|LengthLabel|] == LengthLabel;
    FindFirst(data, LengthLabel, 0, pos);
    NoLineEndInLength(data, pos, x, d);
    assert MatchesAt(data, "\r\n", e);
    FindFirst(data, "\r\n", pos, e);
    DeclaredLengthAt(data, pos, e);
    assert data[pos + |LengthLabel|..e] == w[|LengthLabel|..];
    assert x == LengthLabel + (" " + d);
    DropPrefix(LengthLabel, " " + d);
  }

  /** A `Content-Length: <digits>` line at `pos`, with no label before it,
      declares the number the digits denote. */
  lemma DeclaredLengthAtLine(data: Bytes, pos: nat, d: Bytes)
    requires d != [] && AllDigits(d) && ValueOf(d) <= ULongMax
    requires var x := LengthLabel + " " + d;
             pos + |x| + 2 <= |data| && data[pos..pos + |x|] == x && data[pos + |x|..pos + |x| + 2] == "\r\n"
    requires forall j :: 0 <= j < pos ==> !MatchesAt(data, LengthLabel, j)
    ensures DeclaredLength(data) == Success(ValueOf(d))
  {
    LengthTextAtLine(data, pos, d);
    assert " " + d == [' '] + d + [];
    StoulReadsDigits([' '], d, []);
  }

  /** The rendered header `Content-Length: n` followed by CRLF declares `n`,
      provided no earlier text carries the label. */
  lemma DeclaredLengthOf(pre: Bytes, n: nat, post: Bytes)
    requires n <= ULongMax
    requires forall j :: 0 <= j < |pre| ==> !MatchesAt(pre + LengthLabel + " " + ToDecimal(n) + "\r\n" + post, LengthLabel, j)
    ensures DeclaredLength(pre + LengthLabel + " " + ToDecimal(n) + "\r\n" + post) == Success(n)
  {
    var d := ToDecimal(n);
    DeclaredLengthOfDigits(pre, d, post);
  }

  lemma DeclaredLengthOfDigits(pre: Bytes, d: Bytes, post: Bytes)
    requires d != [] && AllDigits(d) && ValueOf(d) <= ULongMax
    requires forall j :: 0 <= j < |pre| ==> !MatchesAt(pre + LengthLabel + " " + d + "\r\n" + post, LengthLabel, j)
    ensures DeclaredLength(pre + LengthLabel + " " + d + "\r\n" + post) == Success(ValueOf(d))
  {
    var x := LengthLabel + " " + d;
    var data := pre + LengthLabel + " " + d + "\r\n" + post;
    assert data == pre + x + "\r\n" + post;
    SlicesOfLine(data, pre, x, post);
    DeclaredLengthAtLine(data, |pre|, d);
  }

  /** Where the pieces of `pre + x + CRLF + post` sit. */
  lemma SlicesOfLine(data: Bytes, pre: Bytes, x: Bytes, post: Bytes)
    requires data == pre + x + "\r\n" + post
    ensures |pre| + |x| + 2 <= |data|
    ensures data[|pre|..|pre| + |x|] == x
    ensures data[|pre| + |x|..|pre| + |x| + 2] == "\r\n"
  {
  }

  /** A `Content-Length:` label directly followed by CRLF, with no label
      before it, leaves `std::stoul` nothing to read: it throws
      invalid_argument. */
  lemma EmptyLengthInvalid(pre: Bytes, post: Bytes)
    requires forall j :: 0 <= j < |pre| ==> !MatchesAt(pre + LengthLabel + "\r\n" + post, LengthLabel, j)
    ensures DeclaredLength(pre + LengthLabel + "\r\n" + post) == Failure(InvalidArgument)
  {
    var data := pre + LengthLabel + "\r\n" + post;
    var pos := |pre|;
    var e := pos + |LengthLabel|;
    assert data[pos..e] == LengthLabel;
    FindFirst(data, LengthLabel, 0, pos);
    forall j | pos <= j < e
      ensures !MatchesAt(data, "\r\n", j)
    {
      assert data[j] == LengthLabel[j - pos];
      NoMatchAt(data, "\r\n", j);
    }
    assert data[e..e + 2] == "\r\n";
    FindFirst(data, "\r\n", pos, e);
    DeclaredLengthAt(data, pos, e);
    assert data[pos + |LengthLabel|..e] == [];
    assert Stoul([]) == Failure(InvalidArgument);
  }

  /** A prefix holding the terminator makes the whole text hold it. */
  lemma ContainsExtends(p: Bytes, q: Bytes)
    requires Contains(p, Terminator)
    ensures Contains(p + q, Terminator)
  {
    var k := Find(p, Terminator, 0).value;
    assert (p + q)[k..k + |Terminator|] == p[k..k + |Terminator|];
    assert MatchesAt(p + q, Terminator, k);
    ContainsIff(p + q, Terminator);
  }

  /** Without a terminator anywhere, the header loop reads until the peer
      stops sending and keeps everything. */
  lemma NoTerminatorReadsAll(records: seq<Bytes>)
    requires !Contains(Stream(records), Terminator)
    ensures ReadHeaders(records, []).data == Stream(records)
    ensures Stream(ReadHeaders(records, []).rest) == []
  {
    var r := ReadHeaders(records, []);
    assert r.data + Stream(r.rest) == Stream(records) by {
      assert [] + Stream(records) == Stream(records);
    }
    if Stream(r.rest) != [] {
      assert Contains(r.data, Terminator);
      ContainsExtends(r.data, Stream(r.rest));
      assert false;
    }
    assert r.data + [] == r.data;
  }

  /** A terminator split between two records is still found, since the
      accumulated text is searched after every read. */
  lemma SplitTerminatorFound(a: Bytes, b: Bytes)
    requires 0 < |a| <= BufferSize && 0 < |b| <= BufferSize
    requires !Contains(a, Terminator) && Contains(a + b, Terminator)
    ensures ReadHeaders([a, b], []) == Phase(a + b, [])
  {
    assert [a, b][1..] == [b];
    assert [b][1..] == [];
    assert [] + a == a;
  }

  /** One record holding the whole header section is read in one go. */
  lemma OneRecordHeaders(s: Bytes, rest: seq<Bytes>)
    requires 0 < |s| <= BufferSize && Contains(s, Terminator)
    ensures ReadHeaders([s] + rest, []) == Phase(s, rest)
  {
    var records := [s] + rest;
    assert records[0] == s && records[1..] == rest;
    assert SslRead(records, BufferSize) == (s, rest);
    assert [] + s == s;
  }

  /** With enough bytes in one further record, the body loop takes exactly
      the declared number of them. */
  lemma BodyFromOneRecord(next: Bytes, n: nat, acc: Bytes)
    requires n <= |next|
    ensures ReadBody([next], 0, n, acc) == acc + next[..n]
  {
    assert Stream([next]) == next + Stream([]);
    assert Stream([next]) == next;
  }

  /** The bytes that arrived with the headers are not deducted from the
      declared length: when the whole request comes in one record and the
      client pipelines another, the server takes `|body|` more bytes of the
      second request as part of the first. */
  lemma BodyBytesNotDeducted(head: Bytes, body: Bytes, next: Bytes)
    requires 0 < |body| <= |next| && |head + body| <= BufferSize
    requires Contains(head + body, Terminator)
    requires DeclaredLength(head + body) == Success(|body|)
    ensures ReadRequest([head + body, next]) == Success(head + body + next[..|body|])
  {
    assert [head + body, next] == [head + body] + [next];
    OneRecordHeaders(head + body, [next]);
    BodyFromOneRecord(next, |body|, head + body);
  }

  /** With the intended reader, a request whose headers and declared body
      arrive together is complete: nothing more is read from the peer. */
  lemma IntendedStopsAtBody(head: Bytes, body: Bytes, next: Bytes)
    requires 0 < |head + body| <= BufferSize && Contains(head + body, Terminator)
    requires BodyStart(head + body) == |head|
    requires DeclaredLength(head + body) == Success(|body|)
    ensures ReadRequestIntended([head + body, next]) == Success(head + body)
  {
    assert [head + body, next] == [head + body] + [next];
    OneRecordHeaders(head + body, [next]);
  }
}
