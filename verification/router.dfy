/** `generate_response` and its handlers: POST requests are echoed whatever
    their path, the routing table serves `/` and `/about`, and every other
    path is looked up under the web root as a static file. The file system is
    a map from the paths the operating system sees to what `std::filesystem`
    and `std::ifstream` find there. */
module Router {
  import opened Wrappers
  import opened Text
  import opened Mime
  import opened RequestParser
  import opened Responses

  /** What a full path names: a directory, a file that cannot be opened, or a
      readable regular file with its bytes. A path missing from the map does
      not exist. */
  datatype Entry = Directory | Unreadable | Regular(contents: Bytes)

  type FileSystem = map<Bytes, Entry>

  datatype Handler = Root | About

  /** `initialize_routes`: the routing table after start-up. */
  const Routes: map<Bytes, Handler> := map["/" := Root, "/about" := About]

  /** `std::out_of_range` thrown by `unordered_map::at` for a missing key;
      the exception does not name the key, the model records it. */
  datatype MissingField = MissingField(name: Bytes)

  /** `request_info.at(name)`. */
  function At(req: Request, name: Bytes): (r: Result<Bytes, MissingField>)
    ensures r.Success? <==> name in req
    ensures r.Success? ==> r.value == req[name]
    ensures r.Failure? ==> r.error == MissingField(name)
  {
    if name in req then Success(req[name]) else Failure(MissingField(name))
  }

  /** The path the operating system sees: `std::filesystem` and
      `std::ifstream` receive the string through `c_str()`, so it ends at the
      first NUL, while `get_mime_type` sees the whole string. */
  function OsPath(path: Bytes): (r: Bytes)
    ensures '\0' !in r
    ensures |r| <= |path| && r == path[..|r|]
    ensures '\0' !in path <==> r == path
    ensures '\0' in path ==> path[|r|] == '\0'
  {
    var (before, after) := SplitAt(path, '\0');
    assert '\0' in path ==> path == before + ['\0'] + after;
    assert '\0' in path ==> path[..|before|] == before && path[|before|] == '\0';
    before
  }

  /** `fs::exists(p) && !fs::is_directory(p)` and an `ifstream` on `p` that
      opens. */
  predicate Readable(fsys: FileSystem, path: Bytes) {
    OsPath(path) in fsys && fsys[OsPath(path)].Regular?
  }

  /** The bytes of a readable file. */
  function Contents(fsys: FileSystem, path: Bytes): Bytes
    requires Readable(fsys, path)
  {
    fsys[OsPath(path)].contents
  }

  /** The file branch shared by `handle_root` and the static-file case: the
      bytes of a readable regular file, typed by its extension, else 404. */
  function ServeFile(fsys: FileSystem, fullPath: Bytes): (r: Response)
    ensures r.status == Ok <==> Readable(fsys, fullPath)
    ensures Readable(fsys, fullPath) ==> r.body == Contents(fsys, fullPath)
    ensures Readable(fsys, fullPath) ==> r.contentType == GetMimeType(fullPath)
    ensures !Readable(fsys, fullPath) ==> r == NotFoundResponse
    ensures r.contentType in MimeTypes
  {
    MimeCopiesAgree(fullPath);
    if Readable(fsys, fullPath) then
      Response(Ok, ServerGetMimeType(fullPath), Contents(fsys, fullPath))
    else NotFoundResponse
  }

  /** `handle_root`: `index.html` under the web root. */
  function HandleRoot(fsys: FileSystem, webRoot: Bytes): (r: Response)
    ensures r.status == Ok <==> Readable(fsys, webRoot + "/index.html")
  {
    ServeFile(fsys, webRoot + "/index.html")
  }

  /** `handle_post`: echo the stored body, which `at` requires. */
  function HandlePost(req: Request): (r: Result<Response, MissingField>)
    ensures r.Success? <==> "body" in req
    ensures r.Success? ==> EchoedData(r.value.body) == Some(req["body"])
  {
    var data :- At(req, "body");
    Success(PostResponse(data))
  }

  function Dispatch(h: Handler, fsys: FileSystem, webRoot: Bytes): Response {
    match h
    case Root => HandleRoot(fsys, webRoot)
    case About => AboutResponse
  }

  /** `generate_response`. */
  function GenerateResponse(req: Request, fsys: FileSystem, webRoot: Bytes): (r: Result<Response, MissingField>)
    ensures r.Success? <==> "method" in req && "path" in req && (req["method"] == "POST" ==> "body" in req)
    ensures r.Success? ==> r.value.contentType in MimeTypes
  {
    var verb :- At(req, "method");
    var path :- At(req, "path");
    if verb == "POST" then HandlePost(req)
    else if path in Routes then Success(Dispatch(Routes[path], fsys, webRoot))
    else Success(ServeFile(fsys, webRoot + path))
  }

  /** Which file a non-POST request for `path` reads: `index.html` for `/`,
      none for the fixed `/about` page, the path under the web root otherwise. */
  function Target(path: Bytes, webRoot: Bytes): Option<Bytes> {
    if path == "/" then Some(webRoot + "/index.html")
    else if path == "/about" then None
    else Some(webRoot + path)
  }

  /** The request a response answers, stated without the routing table: a POST
      echoes its body, `/about` is the fixed page, and anything else is the
      target file when it is readable and the fixed 404 page otherwise. */
  predicate Answers(req: Request, fsys: FileSystem, webRoot: Bytes, r: Response)
    requires "method" in req && "path" in req
  {
    if req["method"] == "POST" then "body" in req && r == PostResponse(req["body"])
    else match Target(req["path"], webRoot)
      case None => r == AboutResponse
      case Some(file) =>
        if Readable(fsys, file)
        then r == Response(Ok, ServerGetMimeType(file), Contents(fsys, file))
        else r == NotFoundResponse
  }

  /** `generate_response` answers every request that carries the fields it
      reads, and answers it as `Answers` says. */
  lemma GenerateAnswers(req: Request, fsys: FileSystem, webRoot: Bytes)
    requires "method" in req && "path" in req
    requires req["method"] == "POST" ==> "body" in req
    ensures GenerateResponse(req, fsys, webRoot).Success?
    ensures Answers(req, fsys, webRoot, GenerateResponse(req, fsys, webRoot).value)
  {
    var path := req["path"];
    assert path in Routes <==> path == "/" || path == "/about";
  }

  /** A POST is echoed whatever its path, before the routing table is consulted. */
  lemma PostIgnoresPath(req: Request, path: Bytes, fsys: FileSystem, other: FileSystem, webRoot: Bytes)
    requires "method" in req && req["method"] == "POST" && "path" in req
    ensures GenerateResponse(req, fsys, webRoot) == GenerateResponse(req["path" := path], other, webRoot)
  {
    assert req["path" := path]["method"] == "POST";
    assert "body" in req <==> "body" in req["path" := path];
  }

  /** Requesting `/` and requesting `/index.html` give the same response. */
  lemma RootIsIndex(req: Request, fsys: FileSystem, webRoot: Bytes)
    requires "method" in req && req["method"] != "POST"
    ensures GenerateResponse(req["path" := "/"], fsys, webRoot)
         == GenerateResponse(req["path" := "/index.html"], fsys, webRoot)
  {
    assert "/index.html" !in Routes;
  }

  /** A static path is appended to the web root as it is: `..` segments are
      not rejected, so a readable file above the root is served. */
  lemma DotDotServed(req: Request, fsys: FileSystem, webRoot: Bytes, rest: Bytes)
    requires "method" in req && req["method"] != "POST"
    requires "path" in req && req["path"] == "/.." + rest
    requires Readable(fsys, webRoot + "/.." + rest)
    ensures GenerateResponse(req, fsys, webRoot)
         == Success(Response(Ok, ServerGetMimeType(webRoot + "/.." + rest), Contents(fsys, webRoot + "/.." + rest)))
  {
    assert req["path"] != "/" && req["path"] != "/about" by {
      assert req["path"][1] == '.';
    }
    assert webRoot + req["path"] == webRoot + "/.." + rest;
  }

  /** A NUL in the path cuts the file name the operating system opens but not
      the name the type is taken from: the file is `name`, the type comes
      from the whole path. */
  lemma NulSplitsNameAndType(req: Request, fsys: FileSystem, webRoot: Bytes, name: Bytes, tail: Bytes)
    requires "method" in req && req["method"] != "POST"
    requires "path" in req && req["path"] == name + ['\0'] + tail
    requires '\0' !in webRoot + name && Readable(fsys, webRoot + name)
    ensures GenerateResponse(req, fsys, webRoot)
         == Success(Response(Ok, GetMimeType(webRoot + req["path"]), Contents(fsys, webRoot + name)))
  {
    var path := req["path"];
    var full := webRoot + path;
    assert path !in Routes by {
      assert path[|name|] == '\0';
    }
    assert full == (webRoot + name) + ['\0'] + tail;
    OsPathAt(webRoot + name, tail);
    assert Readable(fsys, full) && Contents(fsys, full) == Contents(fsys, webRoot + name);
  }

  /** `/index.html` followed by NUL and `.png` names `index.html` for the
      operating system and is typed `image/png`. */
  lemma NulPngExample(webRoot: Bytes)
    requires '\0' !in webRoot
    ensures "/index.html\0.png" == "/index.html" + ['\0'] + ".png"
    ensures '\0' !in webRoot + "/index.html"
    ensures GetMimeType(webRoot + "/index.html\0.png") == "image/png"
  {
    var stem := webRoot + "/index.html\0";
    assert webRoot + "/index.html\0.png" == stem + ".png";
    MimeOfName(stem, 5);
    assert '\0' !in "/index.html";
  }

  /** The operating system sees a NUL-free text followed by NUL as that text. */
  lemma OsPathAt(p: Bytes, rest: Bytes)
    requires '\0' !in p
    ensures OsPath(p + ['\0'] + rest) == p
  {
    var q := p + ['\0'] + rest;
    assert q[|p|] == '\0' && q[..|p|] == p;
    assert |OsPath(q)| == |p| by {
      NulFreeBelow(q, OsPath(q), p);
    }
  }

  /** Two NUL-free prefixes of `q` each followed by NUL there have the same
      length. */
  lemma NulFreeBelow(q: Bytes, r: Bytes, p: Bytes)
    requires '\0' !in r && '\0' !in p
    requires |r| < |q| && q[..|r|] == r && q[|r|] == '\0'
    requires |p| < |q| && q[..|p|] == p && q[|p|] == '\0'
    ensures |r| == |p|
  {
    assert forall i :: 0 <= i < |p| ==> q[i] == p[i] != '\0';
    assert forall i :: 0 <= i < |r| ==> q[i] == r[i] != '\0';
  }

  /** Every content type the server sends stays on its header line. */
  lemma ContentTypesNoCr(t: Bytes)
    requires t in MimeTypes
    ensures NoCr(t)
  {
  }

  /** Every response `generate_response` produces can be read back from its
      bytes. */
  lemma GeneratedReadsBack(req: Request, fsys: FileSystem, webRoot: Bytes)
    requires GenerateResponse(req, fsys, webRoot).Success?
    ensures var r := GenerateResponse(req, fsys, webRoot).value;
            ParseResponse(Serialize(r)) == Some(r)
  {
    var r := GenerateResponse(req, fsys, webRoot).value;
    assert r.contentType in MimeTypes;
    ContentTypesNoCr(r.contentType);
    ParseSerialize(r);
  }
}
