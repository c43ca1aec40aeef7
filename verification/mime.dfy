/** The MIME resolver: suffix matching and the extension table. The
    repository holds two copies of `get_mime_type`, one in utils.cpp built on
    its own `ends_with` and one in server.cpp built on `std::string::ends_with`;
    both are modelled and shown to agree with one first-match table. */
module Mime {
  import opened Text

  /** utils.cpp `ends_with`: compare the last `|suffix|` characters, false when
      the suffix is longer than the string. */
  predicate EndsWith(s: Bytes, suffix: Bytes) {
    if |s| >= |suffix| then s[|s| - |suffix|..] == suffix else false
  }

  /** `std::string::ends_with` (used by server.cpp), read character by character. */
  predicate StdEndsWith(s: Bytes, x: Bytes) {
    |x| <= |s| && forall i :: 0 <= i < |x| ==> s[|s| - |x| + i] == x[i]
  }

  /** `ends_with(s, x)` holds exactly when `s` is some text followed by `x`. */
  lemma EndsWithIffConcat(s: Bytes, x: Bytes)
    ensures EndsWith(s, x) <==> exists p :: s == p + x
    ensures |x| > |s| ==> !EndsWith(s, x)
  {
    if EndsWith(s, x) {
      assert s == s[..|s| - |x|] + x;
    }
    if exists p :: s == p + x {
      var p :| s == p + x;
      assert s[|p|..] == x;
    }
  }

  /** A string ends with itself and with the empty string. */
  lemma EndsWithEdgeCases(s: Bytes)
    ensures EndsWith(s, s)
    ensures EndsWith(s, [])
  {
  }

  /** A path ending with a non-empty suffix ends with its last character. */
  lemma EndsWithLast(path: Bytes, x: Bytes)
    ensures EndsWith(path, x) && x != [] ==> path[|path| - 1] == x[|x| - 1]
  {
  }

  lemma EndsWithAgree(s: Bytes, x: Bytes)
    ensures StdEndsWith(s, x) == EndsWith(s, x)
  {
    if StdEndsWith(s, x) {
      assert s[|s| - |x|..] == x;
    }
  }

  /** A text followed by a suffix ends with that suffix. */
  lemma EndsWithOwnSuffix(p: Bytes, x: Bytes)
    ensures EndsWith(p + x, x)
  {
    assert (p + x)[|p|..] == x;
  }

  /** The suffix checks of the test suite. */
  lemma EndsWithExamples()
    ensures EndsWith("filename.html", ".html")
    ensures EndsWith("style.css", ".css")
    ensures EndsWith("script.js", ".js")
    ensures EndsWith("image.jpeg", ".jpeg")
    ensures !EndsWith("document.txt", ".html")
    ensures !EndsWith("archive.tar.gz", ".zip")
    ensures EndsWith(".hiddenfile", ".hiddenfile")
    ensures !EndsWith("short", "longer_suffix")
  {
    assert EndsWith("filename.html", ".html") by {
      EndsWithOwnSuffix("filename", ".html");
      assert "filename" + ".html" == "filename.html";
    }
    assert EndsWith("style.css", ".css") by {
      EndsWithOwnSuffix("style", ".css");
      assert "style" + ".css" == "style.css";
    }
    assert EndsWith("script.js", ".js") by {
      EndsWithOwnSuffix("script", ".js");
      assert "script" + ".js" == "script.js";
    }
    assert EndsWith("image.jpeg", ".jpeg") by {
      EndsWithOwnSuffix("image", ".jpeg");
      assert "image" + ".jpeg" == "image.jpeg";
    }
    EndsWithLast("document.txt", ".html");
    EndsWithLast("archive.tar.gz", ".zip");
    EndsWithEdgeCases(".hiddenfile");
    EndsWithIffConcat("short", "longer_suffix");
  }

  const OctetStream: Bytes := "application/octet-stream"

  /** The nine listed extensions with their content types, in the order the
      if-chains test them. */
  const Extensions: seq<(Bytes, Bytes)> := [
    (".html", "text/html"), (".htm", "text/html"), (".css", "text/css"),
    (".js", "application/javascript"), (".json", "application/json"),
    (".png", "image/png"), (".jpg", "image/jpeg"), (".jpeg", "image/jpeg"),
    (".gif", "image/gif")]

  /** The eight content types a lookup can produce. */
  const MimeTypes: set<Bytes> := {
    "text/html", "text/css", "application/javascript", "application/json",
    "image/png", "image/jpeg", "image/gif", OctetStream}

  /** utils.cpp `get_mime_type`. */
  function GetMimeType(path: Bytes): (r: Bytes)
    ensures r in MimeTypes
  {
    if EndsWith(path, ".html") || EndsWith(path, ".htm") then "text/html"
    else if EndsWith(path, ".css") then "text/css"
    else if EndsWith(path, ".js") then "application/javascript"
    else if EndsWith(path, ".json") then "application/json"
    else if EndsWith(path, ".png") then "image/png"
    else if EndsWith(path, ".jpg") || EndsWith(path, ".jpeg") then "image/jpeg"
    else if EndsWith(path, ".gif") then "image/gif"
    else OctetStream
  }

  /** server.cpp `get_mime_type`, the same chain over `std::string::ends_with`. */
  function ServerGetMimeType(path: Bytes): Bytes {
    if StdEndsWith(path, ".html") || StdEndsWith(path, ".htm") then "text/html"
    else if StdEndsWith(path, ".css") then "text/css"
    else if StdEndsWith(path, ".js") then "application/javascript"
    else if StdEndsWith(path, ".json") then "application/json"
    else if StdEndsWith(path, ".png") then "image/png"
    else if StdEndsWith(path, ".jpg") || StdEndsWith(path, ".jpeg") then "image/jpeg"
    else if StdEndsWith(path, ".gif") then "image/gif"
    else OctetStream
  }

  /** The two copies of the table give the same answer on every path. */
  lemma MimeCopiesAgree(path: Bytes)
    ensures ServerGetMimeType(path) == GetMimeType(path)
  {
    EndsWithAgree(path, ".html"); EndsWithAgree(path, ".htm");
    EndsWithAgree(path, ".css"); EndsWithAgree(path, ".js");
    EndsWithAgree(path, ".json"); EndsWithAgree(path, ".png");
    EndsWithAgree(path, ".jpg"); EndsWithAgree(path, ".jpeg");
    EndsWithAgree(path, ".gif");
  }

  /** Every extension starts with its only dot. */
  predicate DotOnlyFirst(e: Bytes) {
    e != [] && e[0] == '.' && forall k :: 0 < k < |e| ==> e[k] != '.'
  }

  lemma ExtensionsShape()
    ensures forall k :: 0 <= k < |Extensions| ==> DotOnlyFirst(Extensions[k].0) && |Extensions[k].0| <= 5
    ensures forall i, j :: 0 <= i < j < |Extensions| ==> Extensions[i].0 != Extensions[j].0
  {
  }

  lemma SameSuffix(path: Bytes, a: Bytes, b: Bytes)
    requires DotOnlyFirst(a) && DotOnlyFirst(b)
    requires EndsWith(path, a) && EndsWith(path, b)
    ensures a == b
  {
    if |a| == |b| {
      assert a == path[|path| - |a|..];
    }
  }

  /** No path ends with two different listed extensions, so the order of the
      branches cannot change the result. */
  lemma ExtensionsExclusive(path: Bytes, i: nat, j: nat)
    requires i < |Extensions| && j < |Extensions|
    requires EndsWith(path, Extensions[i].0) && EndsWith(path, Extensions[j].0)
    ensures i == j
  {
    ExtensionsShape();
    SameSuffix(path, Extensions[i].0, Extensions[j].0);
  }

  /** The chain's tests, one per row of the table. */
  lemma ExtensionLiterals()
    ensures Extensions[0].0 == ".html" && Extensions[1].0 == ".htm" && Extensions[2].0 == ".css"
    ensures Extensions[3].0 == ".js" && Extensions[4].0 == ".json" && Extensions[5].0 == ".png"
    ensures Extensions[6].0 == ".jpg" && Extensions[7].0 == ".jpeg" && Extensions[8].0 == ".gif"
  {
  }

  /** Whichever listed extension a path ends with, it gets that row's type. */
  lemma MimeOfExtension(path: Bytes, k: nat)
    requires k < |Extensions|
    requires EndsWith(path, Extensions[k].0)
    ensures GetMimeType(path) == Extensions[k].1
  {
    ExtensionLiterals();
    forall i | 0 <= i < |Extensions| && EndsWith(path, Extensions[i].0)
      ensures i == k
    {
      ExtensionsExclusive(path, i, k);
    }
    assert EndsWith(path, ".html") ==> k == 0;
    assert EndsWith(path, ".htm") ==> k == 1;
    assert EndsWith(path, ".css") ==> k == 2;
    assert EndsWith(path, ".js") ==> k == 3;
    assert EndsWith(path, ".json") ==> k == 4;
    assert EndsWith(path, ".png") ==> k == 5;
    assert EndsWith(path, ".jpg") ==> k == 6;
    assert EndsWith(path, ".jpeg") ==> k == 7;
  }

  /** No row of the table gives the default type. */
  lemma ListedTypesNotDefault()
    ensures forall k :: 0 <= k < |Extensions| ==> Extensions[k].1 != OctetStream
  {
    assert |OctetStream| == 24;
    assert forall k :: 0 <= k < |Extensions| ==> |Extensions[k].1| != 24;
  }

  lemma UnlistedIsDefault(path: Bytes)
    requires forall k :: 0 <= k < |Extensions| ==> !EndsWith(path, Extensions[k].0)
    ensures GetMimeType(path) == OctetStream
  {
    ExtensionLiterals();
    assert !EndsWith(path, Extensions[0].0) && !EndsWith(path, Extensions[1].0);
    assert !EndsWith(path, Extensions[2].0) && !EndsWith(path, Extensions[3].0);
    assert !EndsWith(path, Extensions[4].0) && !EndsWith(path, Extensions[5].0);
    assert !EndsWith(path, Extensions[6].0) && !EndsWith(path, Extensions[7].0);
    assert !EndsWith(path, Extensions[8].0);
  }

  /** The default type is returned exactly when no listed extension matches. */
  lemma OctetStreamIffUnlisted(path: Bytes)
    ensures GetMimeType(path) == OctetStream <==>
              forall k :: 0 <= k < |Extensions| ==> !EndsWith(path, Extensions[k].0)
  {
    if exists k :: 0 <= k < |Extensions| && EndsWith(path, Extensions[k].0) {
      var k :| 0 <= k < |Extensions| && EndsWith(path, Extensions[k].0);
      MimeOfExtension(path, k);
      ListedTypesNotDefault();
    } else {
      UnlistedIsDefault(path);
    }
  }

  lemma EndsWithTail(p: Bytes, s: Bytes, x: Bytes)
    requires |x| <= |s|
    ensures EndsWith(p + s, x) == EndsWith(s, x)
  {
    assert (p + s)[|p + s| - |x|..] == s[|s| - |x|..];
  }

  /** The type depends only on the last five characters of the path. */
  lemma MimeDependsOnTail(p: Bytes, s: Bytes)
    requires |s| >= 5
    ensures GetMimeType(p + s) == GetMimeType(s)
  {
    EndsWithTail(p, s, ".html"); EndsWithTail(p, s, ".htm");
    EndsWithTail(p, s, ".css"); EndsWithTail(p, s, ".js");
    EndsWithTail(p, s, ".json"); EndsWithTail(p, s, ".png");
    EndsWithTail(p, s, ".jpg"); EndsWithTail(p, s, ".jpeg");
    EndsWithTail(p, s, ".gif");
  }

  /** A stem followed by a listed extension gets that row's type. */
  lemma MimeOfName(stem: Bytes, k: nat)
    requires k < |Extensions|
    ensures GetMimeType(stem + Extensions[k].0) == Extensions[k].1
  {
    var path := stem + Extensions[k].0;
    assert path[|path| - |Extensions[k].0|..] == Extensions[k].0;
    MimeOfExtension(path, k);
  }

  lemma MimeIndexHtml()
    ensures GetMimeType("index.html") == "text/html"
  {
    MimeOfName("index", 0);
    assert "index" + ".html" == "index.html";
  }

  lemma MimeStyleCss()
    ensures GetMimeType("style.css") == "text/css"
  {
    MimeOfName("style", 2);
    assert "style" + ".css" == "style.css";
  }

  lemma MimeScriptJs()
    ensures GetMimeType("script.js") == "application/javascript"
  {
    MimeOfName("script", 3);
    assert "script" + ".js" == "script.js";
  }

  lemma MimeDataJson()
    ensures GetMimeType("data.json") == "application/json"
  {
    MimeOfName("data", 4);
    assert "data" + ".json" == "data.json";
  }

  lemma MimeImagePng()
    ensures GetMimeType("image.png") == "image/png"
  {
    MimeOfName("image", 5);
    assert "image" + ".png" == "image.png";
  }

  lemma MimePhotoJpg()
    ensures GetMimeType("photo.jpg") == "image/jpeg"
  {
    MimeOfName("photo", 6);
    assert "photo" + ".jpg" == "photo.jpg";
  }

  lemma MimeGraphicGif()
    ensures GetMimeType("graphic.gif") == "image/gif"
  {
    MimeOfName("graphic", 8);
    assert "graphic" + ".gif" == "graphic.gif";
  }

  lemma MimeTwoDotsHtml()
    ensures GetMimeType("a.b.html") == "text/html"
  {
    MimeOfName("a.b", 0);
    assert "a.b" + ".html" == "a.b.html";
  }

  /** The documented text mappings of the test suite. */
  lemma MimeTextExamples()
    ensures GetMimeType("index.html") == "text/html"
    ensures GetMimeType("style.css") == "text/css"
    ensures GetMimeType("script.js") == "application/javascript"
    ensures GetMimeType("data.json") == "application/json"
  {
    MimeIndexHtml();
    MimeStyleCss();
    MimeScriptJs();
    MimeDataJson();
  }

  /** The documented image mappings of the test suite, and a name with two dots. */
  lemma MimeImageExamples()
    ensures GetMimeType("image.png") == "image/png"
    ensures GetMimeType("photo.jpg") == "image/jpeg"
    ensures GetMimeType("graphic.gif") == "image/gif"
    ensures GetMimeType("a.b.html") == "text/html"
  {
    MimeImagePng();
    MimePhotoJpg();
    MimeGraphicGif();
    MimeTwoDotsHtml();
  }

  /** A path whose last character ends no listed extension gets the default. */
  lemma UnlistedByLastChar(path: Bytes)
    requires path != [] && path[|path| - 1] !in {'l', 'm', 's', 'n', 'g', 'f'}
    ensures GetMimeType(path) == OctetStream
  {
    ExtensionLiterals();
    forall k | 0 <= k < |Extensions|
      ensures !EndsWith(path, Extensions[k].0)
    {
      var x := Extensions[k].0;
      assert x != [] && x[|x| - 1] in {'l', 'm', 's', 'n', 'g', 'f'};
      EndsWithLast(path, x);
    }
    OctetStreamIffUnlisted(path);
  }

  lemma MimeUnknownExamples()
    ensures GetMimeType("archive.zip") == OctetStream
    ensures GetMimeType("video.mp4") == OctetStream
    ensures GetMimeType("audio.mp3") == OctetStream
    ensures GetMimeType("README") == OctetStream
    ensures GetMimeType("INDEX.HTML") == OctetStream
  {
    UnlistedByLastChar("archive.zip");
    UnlistedByLastChar("video.mp4");
    UnlistedByLastChar("audio.mp3");
    UnlistedByLastChar("README");
    UnlistedByLastChar("INDEX.HTML");
  }
}
