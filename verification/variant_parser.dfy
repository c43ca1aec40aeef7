/** utils.cpp `parse_request`, the second request parser of the repository:
    only a line `"\r"` ends the headers, a value loses spaces and line ends in
    front only, and a body is read only when `Content-Length` is present,
    padded with spaces to the declared length. */
module VariantParser {
  import opened Wrappers
  import opened Text
  import opened Numbers
  import opened RequestParser

  /** Stripped in front of a header value (`find_first_not_of(" \r\n")`). */
  const VariantBlank: set<char> := {' ', '\r', '\n'}

  /** How the body step can fail: `std::stoi` throws on the declared length,
      or the length is negative and `std::string(n, ' ')` throws. */
  datatype VariantError = BadContentLength(cause: ConversionError) | NegativeLength

  /** A header line split at its first `':'`; the value keeps trailing blanks. */
  function VariantField(line: Bytes): (r: Option<Field>)
    ensures r.None? <==> ':' !in line
    ensures r.Some? ==> |r.value.name| < |line| && line == r.value.name + ":" + line[|r.value.name| + 1..]
    ensures r.Some? ==> ':' !in r.value.name && r.value.value == TrimLeft(line[|r.value.name| + 1..], VariantBlank)
  {
    if ':' !in line then None
    else
      var (name, after) := SplitAt(line, ':');
      assert line == name + ":" + after;
      assert line[|name| + 1..] == after;
      Some(Field(name, TrimLeft(after, VariantBlank)))
  }

  /** The header loop: stops at a line `"\r"` or when the text runs out; any
      other line, an empty one included, is a field or is skipped. */
  function VariantHeaders(m: Request, s: Bytes): (r: (Request, Bytes))
    ensures m.Keys <= r.0.Keys
    ensures |r.1| <= |s|
    decreases |s|
  {
    match GetLine(s)
    case None => (m, [])
    case Some((line, rest)) =>
      if line == "\r" then (m, rest)
      else match VariantField(line)
        case None => VariantHeaders(m, rest)
        case Some(f) => VariantHeaders(m[f.name := f.value], rest)
  }

  /** The variant's header section of `s`: its lines before the first line
      `"\r"`, and the text after that line (nothing when the text ran out
      first). Empty lines belong to the section. */
  function VariantSection(s: Bytes): (r: (seq<Bytes>, Bytes))
    ensures forall i :: 0 <= i < |r.0| ==> r.0[i] != "\r" && '\n' !in r.0[i]
    decreases |s|
  {
    match GetLine(s)
    case None => ([], [])
    case Some((line, rest)) =>
      if line == "\r" then ([], rest)
      else
        var (lines, after) := VariantSection(rest);
        ([line] + lines, after)
  }

  /** The value of the last line among `lines` that the variant reads as a
      field named `name`. */
  function VariantLastValue(lines: seq<Bytes>, name: Bytes): Option<Bytes> {
    if lines == [] then None
    else match VariantLastValue(lines[1..], name)
      case Some(v) => Some(v)
      case None =>
        match VariantField(lines[0])
        case Some(f) => if f.name == name then Some(f.value) else None
        case None => None
  }

  /** The variant's header loop stores, for every name, the value of the
      last field line of that name in its section, and leaves other names as
      they were. */
  lemma {:induction false} VariantHeadersStoreLastValue(m: Request, s: Bytes, name: Bytes)
    ensures VariantHeaders(m, s).1 == VariantSection(s).1
    ensures StoresLast(VariantHeaders(m, s).0, m, VariantLastValue(VariantSection(s).0, name), name)
    decreases |s|
  {
    match GetLine(s)
    case None =>
    case Some((line, rest)) =>
      if line != "\r" {
        var lines := VariantSection(rest).0;
        assert VariantSection(s) == ([line] + lines, VariantSection(rest).1);
        assert ([line] + lines)[1..] == lines;
        match VariantField(line)
        case None =>
          assert VariantHeaders(m, s) == VariantHeaders(m, rest);
          VariantHeadersStoreLastValue(m, rest, name);
        case Some(f) =>
          assert VariantHeaders(m, s) == VariantHeaders(m[f.name := f.value], rest);
          VariantHeadersStoreLastValue(m[f.name := f.value], rest, name);
      }
  }

  /** `std::string body(n, ' ')` filled by `stream.read(&body[0], n)`: the
      first `n` characters of `s`, padded with spaces when `s` is shorter. */
  function Pad(s: Bytes, n: nat): (r: Bytes)
    ensures |r| == n
    ensures forall i :: 0 <= i < n ==> r[i] == if i < |s| then s[i] else ' '
  {
    if n == 0 then []
    else if s == [] then [' '] + Pad([], n - 1)
    else [s[0]] + Pad(s[1..], n - 1)
  }

  /** The body step after the header loop `h`. */
  function VariantBody(h: (Request, Bytes)): (r: Result<Request, VariantError>)
    ensures r.Success? ==> h.0.Keys <= r.value.Keys
    ensures "Content-Length" !in h.0 ==> r == Success(h.0)
    ensures "Content-Length" in h.0 ==>
              match Stoi(h.0["Content-Length"])
              case Failure(e) => r == Failure(BadContentLength(e))
              case Success(n) =>
                if n < 0 then r == Failure(NegativeLength)
                else && r.Success? && "body" in r.value && r.value["body"] == Pad(h.1, n)
                     && forall name :: name != "body" ==>
                          && (name in r.value <==> name in h.0)
                          && (name in h.0 ==> r.value[name] == h.0[name])
  {
    if "Content-Length" !in h.0 then Success(h.0)
    else match Stoi(h.0["Content-Length"])
      case Failure(e) => Failure(BadContentLength(e))
      case Success(n) =>
        if n < 0 then Failure(NegativeLength) else Success(h.0["body" := Pad(h.1, n)])
  }

  /** utils.cpp `parse_request`. */
  function ParseRequestVariant(request: Bytes): (r: Result<Request, VariantError>)
    ensures request == [] ==> r == Success(map[])
    ensures request != [] && r.Success? ==> "method" in r.value && "path" in r.value && "version" in r.value
  {
    match GetLine(request)
    case None => VariantBody((map[], []))
    case Some((line, rest)) => VariantBody(VariantHeaders(LineFields(line), rest))
  }

  /** The fields as the variant stores them from their `name: value␍` lines:
      the trailing `'\r'` stays in the value. */
  function WithCr(fs: seq<Field>): (r: seq<Field>)
    ensures |r| == |fs|
    ensures forall i :: 0 <= i < |fs| ==> r[i] == Field(fs[i].name, fs[i].value + "\r")
  {
    if fs == [] then [] else [Field(fs[0].name, fs[0].value + "\r")] + WithCr(fs[1..])
  }

  lemma VariantFieldOfLine(name: Bytes, value: Bytes)
    requires PlainField(Field(name, value)) && value[0] != '\r'
    ensures VariantField(name + ":" + " " + value + "\r") == Some(Field(name, value + "\r"))
  {
    var line := name + ":" + " " + value + "\r";
    assert ':' !in name by {
      forall i | 0 <= i < |name| ensures name[i] != ':' { }
    }
    assert line == name + [':'] + (" " + (value + "\r"));
    SplitAtConcat(name, ':', " " + (value + "\r"));
    assert " " + (value + "\r") == [' '] + (value + "\r");
    TrimLeftSkips([' '], value + "\r", VariantBlank);
  }

  lemma FieldLineNoNewline(name: Bytes, value: Bytes)
    requires PlainField(Field(name, value))
    ensures '\n' !in name + ":" + " " + value + "\r"
  {
    var line := name + ":" + " " + value + "\r";
    assert forall i :: 0 <= i < |line| ==> line[i] != '\n' by {
      forall i | 0 <= i < |line| ensures line[i] != '\n' {
        if i < |name| {
          assert line[i] == name[i];
        } else if |name| + 2 <= i < |name| + 2 + |value| {
          assert line[i] == value[i - |name| - 2];
        }
      }
    }
  }

  lemma VariantLineStep(m: Request, name: Bytes, value: Bytes, rest: Bytes)
    requires PlainField(Field(name, value)) && value[0] != '\r'
    ensures VariantHeaders(m, name + ":" + " " + value + "\r" + "\n" + rest)
         == VariantHeaders(m[name := value + "\r"], rest)
  {
    var line := name + ":" + " " + value + "\r";
    VariantFieldOfLine(name, value);
    FieldLineNoNewline(name, value);
    SplitAtConcat(line, '\n', rest);
    assert GetLine(line + "\n" + rest) == Some((line, rest));
  }

  /** The variant's header loop over the lines of `fs` stores the fields in
      order, each value keeping its `'\r'`. */
  lemma {:induction false} VariantHeadersOfFieldLines(m: Request, fs: seq<Field>, rest: Bytes)
    requires forall i :: 0 <= i < |fs| ==> PlainField(fs[i]) && fs[i].value[0] != '\r'
    ensures VariantHeaders(m, FieldLines(fs) + rest) == VariantHeaders(Store(m, WithCr(fs)), rest)
    decreases |fs|
  {
    if fs != [] {
      var f := fs[0];
      assert PlainField(fs[0]) && fs[0].value[0] != '\r';
      FieldLinesCons(fs, rest);
      VariantLineStep(m, f.name, f.value, FieldLines(fs[1..]) + rest);
      VariantHeadersOfFieldLines(m[f.name := f.value + "\r"], fs[1..], rest);
      assert WithCr(fs)[1..] == WithCr(fs[1..]);
    } else {
      assert FieldLines(fs) + rest == rest;
    }
  }

  /** The line `"\r"` ends the variant's header loop. */
  lemma VariantHeaderEnd(m: Request, rest: Bytes)
    ensures VariantHeaders(m, "\r\n" + rest) == (m, rest)
  {
    assert "\r\n" + rest == "\r" + "\n" + rest;
    SplitAtConcat("\r", '\n', rest);
    assert GetLine("\r" + "\n" + rest) == Some(("\r", rest));
  }

  /** An empty line ends the server's header loop but not the variant's,
      which skips it and reads on. */
  lemma EmptyLineEndsOnlyServerHeaders(m: Request, rest: Bytes)
    ensures Headers(m, "\n" + rest) == (m, rest)
    ensures VariantHeaders(m, "\n" + rest) == VariantHeaders(m, rest)
  {
    assert "\n" + rest == [] + ['\n'] + rest;
    SplitAtConcat([], '\n', rest);
    assert GetLine([] + ['\n'] + rest) == Some(([], rest));
  }

  /** Parsing the text of a well-formed request with the variant: the header
      values keep their `'\r'`, and the body step runs on the text after the
      blank line. */
  lemma ParseVariantText(request: Bytes, verb: Bytes, path: Bytes, version: Bytes, fs: seq<Field>, body: Bytes)
    requires request == RequestText(verb, path, version, fs, body)
    requires IsWord(verb) && IsWord(path) && IsWord(version)
    requires forall i :: 0 <= i < |fs| ==> PlainField(fs[i]) && fs[i].value[0] != '\r'
    ensures ParseRequestVariant(request) == VariantBody((Store(LineMap(verb, path, version), WithCr(fs)), body))
  {
    var line := verb + " " + path + " " + version + "\r";
    var rest := FieldLines(fs) + ("\r\n" + body);
    RequestTextShape(verb, path, version, fs, body);
    SplitAtConcat(line, '\n', rest);
    assert GetLine(request) == Some((line, rest));
    assert ParseRequestVariant(request) == VariantBody(VariantHeaders(LineFields(line), rest));
    RequestLineOf(verb, path, version, "\r");
    var m0 := LineMap(verb, path, version);
    assert LineFields(line) == m0;
    VariantHeadersOfFieldLines(m0, fs, "\r\n" + body);
    VariantHeaderEnd(Store(m0, WithCr(fs)), body);
    assert VariantHeaders(m0, rest) == (Store(m0, WithCr(fs)), body);
  }
}
