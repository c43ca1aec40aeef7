/** The cases of the repository's parser test suite, and the header-override
    quirk, worked through the server's parser. */
module RequestExamples {
  import opened Wrappers
  import opened Text
  import opened Numbers
  import opened RequestParser
  import opened VariantParser

  const GetFields: seq<Field> := [Field("Host", "localhost:8080"), Field("Connection", "close")]

  /** The request of the test suite's GET case:
      `GET /about HTTP/1.1␍␊Host: localhost:8080␍␊Connection: close␍␊␍␊`. */
  const GetExample: Bytes := RequestText("GET", "/about", "HTTP/1.1", GetFields, [])

  const PostFields: seq<Field> :=
    [ Field("Host", "localhost:8080"), Field("Content-Type", "application/x-www-form-urlencoded")
    , Field("Content-Length", "13"), Field("Connection", "close") ]

  /** The request of the test suite's POST case: four header lines, the blank
      line, and the 12-byte body `name=JohnDoe`. */
  const PostExample: Bytes := RequestText("POST", "/submit", "HTTP/1.1", PostFields, "name=JohnDoe")

  lemma GetFieldsPlain()
    ensures forall i :: 0 <= i < |GetFields| ==> PlainField(GetFields[i])
  {
    PlainFieldOf("Host", "localhost:8080");
    PlainFieldOf("Connection", "close");
  }

  lemma GetPartsPlain()
    ensures IsWord("GET") && IsWord("/about") && IsWord("HTTP/1.1")
  {
  }

  lemma PostPartsPlain()
    ensures IsWord("POST") && IsWord("/submit") && IsWord("HTTP/1.1")
    ensures forall i :: 0 <= i < |"name=JohnDoe"| ==> "name=JohnDoe"[i] != '\0'
  {
  }

  lemma PostFieldsPlain()
    ensures forall i :: 0 <= i < |PostFields| ==> PlainField(PostFields[i])
  {
    PlainFieldOf("Host", "localhost:8080");
    PlainFieldOf("Content-Type", "application/x-www-form-urlencoded");
    PlainFieldOf("Content-Length", "13");
    PlainFieldOf("Connection", "close");
  }

  lemma GetStore(m: Request)
    requires m == Store(LineMap("GET", "/about", "HTTP/1.1"), GetFields)
    ensures "method" in m && m["method"] == "GET" && "path" in m && m["path"] == "/about"
    ensures "version" in m && m["version"] == "HTTP/1.1"
    ensures "Host" in m && m["Host"] == "localhost:8080" && "Connection" in m && m["Connection"] == "close"
  {
    var m0 := LineMap("GET", "/about", "HTTP/1.1");
    StoreHoldsLast(m0, GetFields, 0);
    StoreHoldsLast(m0, GetFields, 1);
    StoreKeeps(m0, GetFields, "method");
    StoreKeeps(m0, GetFields, "path");
    StoreKeeps(m0, GetFields, "version");
  }

  /** What the server's parser stores for the GET case, under any name but
      `body`. */
  lemma GetParsed(name: Bytes)
    requires name != "body"
    ensures var m := Store(LineMap("GET", "/about", "HTTP/1.1"), GetFields);
            (name in ParseRequest(GetExample) <==> name in m)
            && (name in m ==> ParseRequest(GetExample)[name] == m[name])
  {
    GetFieldsPlain();
    GetPartsPlain();
    ParseRequestText(GetExample, "GET", "/about", "HTTP/1.1", GetFields, []);
  }

  lemma GetBody()
    ensures "body" in ParseRequest(GetExample) && ParseRequest(GetExample)["body"] == ""
  {
    GetFieldsPlain();
    GetPartsPlain();
    ParseRequestText(GetExample, "GET", "/about", "HTTP/1.1", GetFields, []);
  }

  /** The GET case of the test suite: request-line fields, two headers, no body. */
  lemma GetRequestExample()
    ensures var r := ParseRequest(GetExample);
            && r["method"] == "GET" && r["path"] == "/about" && r["version"] == "HTTP/1.1"
            && "Host" in r && r["Host"] == "localhost:8080"
            && "Connection" in r && r["Connection"] == "close"
            && r["body"] == ""
  {
    GetStore(Store(LineMap("GET", "/about", "HTTP/1.1"), GetFields));
    GetParsed("method");
    GetParsed("path");
    GetParsed("version");
    GetParsed("Host");
    GetParsed("Connection");
    GetBody();
  }

  lemma PostStore(m: Request)
    requires m == Store(LineMap("POST", "/submit", "HTTP/1.1"), PostFields)
    ensures "method" in m && m["method"] == "POST" && "path" in m && m["path"] == "/submit"
    ensures "version" in m && m["version"] == "HTTP/1.1"
    ensures "Host" in m && m["Host"] == "localhost:8080"
    ensures "Content-Type" in m && m["Content-Type"] == "application/x-www-form-urlencoded"
    ensures "Content-Length" in m && m["Content-Length"] == "13"
    ensures "Connection" in m && m["Connection"] == "close"
  {
    var m0 := LineMap("POST", "/submit", "HTTP/1.1");
    StoreHoldsLast(m0, PostFields, 0);
    StoreHoldsLast(m0, PostFields, 1);
    StoreHoldsLast(m0, PostFields, 2);
    StoreHoldsLast(m0, PostFields, 3);
    StoreKeeps(m0, PostFields, "method");
    StoreKeeps(m0, PostFields, "path");
    StoreKeeps(m0, PostFields, "version");
  }

  lemma PostParsed(name: Bytes)
    requires name != "body"
    ensures var m := Store(LineMap("POST", "/submit", "HTTP/1.1"), PostFields);
            (name in ParseRequest(PostExample) <==> name in m)
            && (name in m ==> ParseRequest(PostExample)[name] == m[name])
  {
    PostFieldsPlain();
    PostPartsPlain();
    ParseRequestText(PostExample, "POST", "/submit", "HTTP/1.1", PostFields, "name=JohnDoe");
  }

  lemma PostBody()
    ensures "body" in ParseRequest(PostExample) && ParseRequest(PostExample)["body"] == "name=JohnDoe"
  {
    PostFieldsPlain();
    PostPartsPlain();
    ParseRequestText(PostExample, "POST", "/submit", "HTTP/1.1", PostFields, "name=JohnDoe");
  }

  /** The POST case of the test suite: the body is what follows the blank
      line, kept as is although `Content-Length` declares 13 bytes for 12. */
  lemma PostRequestExample()
    ensures var r := ParseRequest(PostExample);
            && r["method"] == "POST" && r["path"] == "/submit" && r["version"] == "HTTP/1.1"
            && "Host" in r && r["Host"] == "localhost:8080"
            && "Content-Type" in r && r["Content-Type"] == "application/x-www-form-urlencoded"
            && "Content-Length" in r && r["Content-Length"] == "13"
            && "Connection" in r && r["Connection"] == "close"
            && r["body"] == "name=JohnDoe"
  {
    PostStore(Store(LineMap("POST", "/submit", "HTTP/1.1"), PostFields));
    PostParsed("method");
    PostParsed("path");
    PostParsed("version");
    PostParsed("Host");
    PostParsed("Content-Type");
    PostParsed("Content-Length");
    PostParsed("Connection");
    PostBody();
  }

  /** The malformed case of the test suite: one word, no line end. */
  lemma BadRequestExample()
    ensures var r := ParseRequest("BADREQUEST");
            r["method"] == "BADREQUEST" && r["path"] == "" && r["version"] == "" && r["body"] == ""
  {
    OneWordRequest("BADREQUEST");
  }

  /** A header named `method` overwrites the request-line method, since both
      live in the same map. */
  lemma HeaderOverridesMethod()
    ensures ParseRequest(RequestText("GET", "/", "HTTP/1.1", [Field("method", "POST")], []))["method"] == "POST"
  {
    var fs := [Field("method", "POST")];
    PlainFieldOf("method", "POST");
    StoreHoldsLast(LineMap("GET", "/", "HTTP/1.1"), fs, 0);
    ParseRequestText(RequestText("GET", "/", "HTTP/1.1", fs, []), "GET", "/", "HTTP/1.1", fs, []);
  }

  lemma PostFieldsNoCr()
    ensures forall i :: 0 <= i < |PostFields| ==> PostFields[i].value[0] != '\r'
  {
  }

  lemma VariantPostStore(m: Request)
    requires m == Store(LineMap("POST", "/submit", "HTTP/1.1"), WithCr(PostFields))
    ensures "Host" in m && m["Host"] == "localhost:8080\r"
    ensures "Content-Length" in m && m["Content-Length"] == "13\r"
  {
    var m0 := LineMap("POST", "/submit", "HTTP/1.1");
    var fs := WithCr(PostFields);
    assert fs[0] == Field("Host", "localhost:8080\r");
    assert fs[2] == Field("Content-Length", "13\r");
    assert fs[3].name == "Connection";
    assert fs[1].name == "Content-Type";
    StoreHoldsLast(m0, fs, 0);
    StoreHoldsLast(m0, fs, 2);
  }

  /** The POST case through the variant: `Host` keeps its `'\r'`, and the body
      is read as the declared 13 bytes, the missing one left a space, where
      the server's parser keeps the 12 bytes sent. */
  lemma VariantPostExample()
    ensures var r := ParseRequestVariant(PostExample);
            && r.Success? && "Host" in r.value && r.value["Host"] == "localhost:8080\r"
            && "body" in r.value && r.value["body"] == "name=JohnDoe "
    ensures ParseRequest(PostExample)["body"] == "name=JohnDoe"
  {
    PostFieldsPlain();
    PostFieldsNoCr();
    PostPartsPlain();
    ParseVariantText(PostExample, "POST", "/submit", "HTTP/1.1", PostFields, "name=JohnDoe");
    var m := Store(LineMap("POST", "/submit", "HTTP/1.1"), WithCr(PostFields));
    VariantPostStore(m);
    DeclaredThirteen();
    PadExample();
    PostRequestExample();
  }

  lemma DeclaredThirteen()
    ensures Stoi("13\r") == Success(13)
  {
    assert ToDecimal(13) == "13";
    StoiReadsDecimal([], 13, "\r");
    assert [] + "13" + "\r" == "13\r";
  }

  lemma PadExample()
    ensures Pad("name=JohnDoe", 13) == "name=JohnDoe "
  {
  }

  /** The GET case through the variant: without `Content-Length` there is no
      `body` entry at all, where the server's parser stores an empty one. */
  lemma VariantGetExample()
    ensures var r := ParseRequestVariant(GetExample);
            r.Success? && "body" !in r.value && "Connection" in r.value && r.value["Connection"] == "close\r"
    ensures "body" in ParseRequest(GetExample)
  {
    GetFieldsPlain();
    assert GetFields[0].value[0] != '\r' && GetFields[1].value[0] != '\r';
    ParseVariantText(GetExample, "GET", "/about", "HTTP/1.1", GetFields, []);
    VariantGetStore(Store(LineMap("GET", "/about", "HTTP/1.1"), WithCr(GetFields)));
    GetRequestExample();
  }

  lemma VariantGetStore(m: Request)
    requires m == Store(LineMap("GET", "/about", "HTTP/1.1"), WithCr(GetFields))
    ensures "Content-Length" !in m && "body" !in m
    ensures "Connection" in m && m["Connection"] == "close\r"
  {
    var m0 := LineMap("GET", "/about", "HTTP/1.1");
    var fs := WithCr(GetFields);
    assert fs[0].name == "Host" && fs[1] == Field("Connection", "close\r");
    StoreKeeps(m0, fs, "Content-Length");
    StoreKeeps(m0, fs, "body");
    StoreHoldsLast(m0, fs, 1);
  }
}
