/** server.cpp `parse_request`, the parser the server runs: the request line
    is read with `>>`, header lines with `getline` until a blank line, and the
    body is the rest of the text up to the first NUL. */
module RequestParser {
  import opened Wrappers
  import opened Text

  /** The parsed request: field name to value (an `std::unordered_map`). */
  type Request = map<Bytes, Bytes>

  /** The words of `s`, scanned character by character: `cur` is the word
      being built. */
  function WordsFrom(s: Bytes, cur: Bytes): seq<Bytes>
    decreases |s|
  {
    if s == [] then (if cur == [] then [] else [cur])
    else if s[0] in Whitespace then (if cur == [] then [] else [cur]) + WordsFrom(s[1..], [])
    else WordsFrom(s[1..], cur + [s[0]])
  }

  /** The maximal runs of non-whitespace characters of `s`, in order. */
  function Words(s: Bytes): seq<Bytes> {
    WordsFrom(s, [])
  }

  /** The `k`-th word, or the empty string when there are fewer words. */
  function Nth(ws: seq<Bytes>, k: nat): Bytes {
    if k < |ws| then ws[k] else []
  }

  lemma {:induction false} WordsSkipSpace(pre: Bytes, x: Bytes)
    requires forall i :: 0 <= i < |pre| ==> pre[i] in Whitespace
    ensures WordsFrom(pre + x, []) == WordsFrom(x, [])
  {
    if pre != [] {
      assert (pre + x)[0] == pre[0] && (pre + x)[1..] == pre[1..] + x;
      WordsSkipSpace(pre[1..], x);
    } else {
      assert pre + x == x;
    }
  }

  lemma {:induction false} WordsTakeWord(w: Bytes, rest: Bytes, cur: Bytes)
    requires forall i :: 0 <= i < |w| ==> w[i] !in Whitespace
    requires rest == [] || rest[0] in Whitespace
    ensures WordsFrom(w + rest, cur) == (if cur + w == [] then [] else [cur + w]) + WordsFrom(rest, [])
  {
    if w == [] {
      assert w + rest == rest && cur + w == cur;
    } else {
      assert (w + rest)[0] == w[0] && (w + rest)[1..] == w[1..] + rest;
      WordsTakeWord(w[1..], rest, cur + [w[0]]);
      assert cur + [w[0]] + w[1..] == cur + w;
    }
  }

  /** One `>>` extraction takes exactly the first word. */
  lemma ReadWordTakesFirstWord(s: Bytes)
    ensures Words(s) == (if ReadWord(s).0 == [] then [] else [ReadWord(s).0]) + Words(ReadWord(s).1)
  {
    var (w, rest) := ReadWord(s);
    var k := |s| - |w| - |rest|;
    assert s == s[..k] + (w + rest);
    WordsSkipSpace(s[..k], w + rest);
    WordsTakeWord(w, rest, []);
    assert [] + w == w;
  }

  /** `line_stream >> method; >> path; >> version`. */
  function RequestLine(line: Bytes): (Bytes, Bytes, Bytes) {
    var (verb, rest1) := ReadWord(line);
    var (path, rest2) := ReadWord(rest1);
    var (version, _) := ReadWord(rest2);
    (verb, path, version)
  }

  /** The request line yields the first three words of the line, each empty
      when missing (so a trailing `'\r'` never reaches a field). */
  lemma RequestLineWords(line: Bytes)
    ensures RequestLine(line) == (Nth(Words(line), 0), Nth(Words(line), 1), Nth(Words(line), 2))
  {
    var (verb, rest1) := ReadWord(line);
    var (path, rest2) := ReadWord(rest1);
    ReadWordTakesFirstWord(line);
    ReadWordTakesFirstWord(rest1);
    ReadWordTakesFirstWord(rest2);
  }

  /** One header line as server.cpp splits it. */
  datatype Field = Field(name: Bytes, value: Bytes)

  /** Stripped in front of a header value, and behind it. */
  const LeadingBlank: set<char> := {' ', '\t'}
  const TrailingBlank: set<char> := {' ', '\t', '\r', '\n'}

  /** `v` is `s` with a maximal run of `lead` characters removed in front and
      a maximal run of `trail` characters removed behind. */
  ghost predicate Stripped(s: Bytes, v: Bytes, lead: set<char>, trail: set<char>) {
    exists i :: StrippedAt(s, v, i, lead, trail)
  }

  /** `v` is found in `s` at index `i`, with only `lead` characters before it
      and only `trail` characters after it. */
  ghost predicate StrippedAt(s: Bytes, v: Bytes, i: int, lead: set<char>, trail: set<char>) {
    && 0 <= i && i + |v| <= |s| && s[i..i + |v|] == v
    && (forall k :: 0 <= k < i ==> s[k] in lead)
    && (forall k :: i + |v| <= k < |s| ==> s[k] in trail)
    && (v == [] || (v[0] !in lead && v[|v| - 1] !in trail))
  }

  lemma StripWitness(s: Bytes, lead: set<char>, trail: set<char>)
    ensures Stripped(s, TrimRight(TrimLeft(s, lead), trail), lead, trail)
  {
    var t := TrimLeft(s, lead);
    var v := TrimRight(t, trail);
    var i := |s| - |t|;
    assert s[i..i + |v|] == v;
    assert forall k :: i + |v| <= k < |s| ==> s[k] == t[k - i];
    assert StrippedAt(s, v, i, lead, trail);
  }

  /** server.cpp's split of a header line at its first `':'`. */
  function ParseField(line: Bytes): (r: Option<Field>)
    ensures r.None? <==> ':' !in line
    ensures r.Some? ==> var n := r.value.name;
              ':' !in n && |n| < |line| && line[..|n|] == n && line[|n|] == ':'
  {
    if ':' !in line then None
    else
      var (name, after) := SplitAt(line, ':');
      Some(Field(name, TrimRight(TrimLeft(after, LeadingBlank), TrailingBlank)))
  }

  /** A line holding `':'` is a field named by the exact text before the first
      `':'`, valued by the rest stripped of blanks in front and of blanks and
      line ends behind; a line without `':'` is no field. */
  lemma ParseFieldMeaning(line: Bytes)
    ensures ParseField(line).None? <==> ':' !in line
    ensures ParseField(line).Some? ==>
              var n := ParseField(line).value.name;
              && ':' !in n && line[..|n|] == n && line[|n|] == ':'
              && Stripped(line[|n| + 1..], ParseField(line).value.value, LeadingBlank, TrailingBlank)
  {
    if ':' in line {
      var (name, after) := SplitAt(line, ':');
      assert line[|name| + 1..] == after;
      StripWitness(after, LeadingBlank, TrailingBlank);
    }
  }

  /** The exact text of a field line with the given value. */
  lemma FieldOf(name: Bytes, pre: Bytes, value: Bytes, post: Bytes)
    requires ':' !in name
    requires forall i :: 0 <= i < |pre| ==> pre[i] in LeadingBlank
    requires value != [] && value[0] !in LeadingBlank && value[|value| - 1] !in TrailingBlank
    requires forall i :: 0 <= i < |post| ==> post[i] in TrailingBlank
    ensures ParseField(name + ":" + pre + value + post) == Some(Field(name, value))
  {
    var line := name + ":" + pre + value + post;
    assert line == name + [':'] + (pre + value + post);
    assert line[|name|] == ':';
    SplitAtConcat(name, ':', pre + value + post);
    assert pre + value + post == pre + (value + post);
    assert (value + post)[0] == value[0];
    TrimLeftSkips(pre, value + post, LeadingBlank);
    TrimRightSkips(value, post, TrailingBlank);
  }

  /** The line that ends the header section: `"\r"` or empty. */
  predicate EndsHeaders(line: Bytes) {
    line == "\r" || line == []
  }

  /** The header loop: each field line updates the map, other lines are
      skipped; returns the map and the text after the line that ended it. */
  function Headers(m: Request, s: Bytes): (r: (Request, Bytes))
    ensures m.Keys <= r.0.Keys
    decreases |s|
  {
    match GetLine(s)
    case None => (m, [])
    case Some((line, rest)) =>
      if EndsHeaders(line) then (m, rest)
      else match ParseField(line)
        case None => Headers(m, rest)
        case Some(f) => Headers(m[f.name := f.value], rest)
  }

  /** The header section of `s`: its lines before the first blank line, and
      the text after that line (nothing when the text ran out first). */
  function Section(s: Bytes): (r: (seq<Bytes>, Bytes))
    ensures forall i :: 0 <= i < |r.0| ==> !EndsHeaders(r.0[i]) && '\n' !in r.0[i]
    decreases |s|
  {
    match GetLine(s)
    case None => ([], [])
    case Some((line, rest)) =>
      if EndsHeaders(line) then ([], rest)
      else
        var (lines, after) := Section(rest);
        ([line] + lines, after)
  }

  /** The value of the last line among `lines` that is a field named `name`. */
  function LastValue(lines: seq<Bytes>, name: Bytes): Option<Bytes> {
    if lines == [] then None
    else match LastValue(lines[1..], name)
      case Some(v) => Some(v)
      case None =>
        match ParseField(lines[0])
        case Some(f) => if f.name == name then Some(f.value) else None
        case None => None
  }

  /** `r` holds under `name` the value `last` when there is one, and else
      what `m` held. */
  predicate StoresLast(r: Request, m: Request, last: Option<Bytes>, name: Bytes) {
    match last
    case Some(v) => name in r && r[name] == v
    case None => (name in r <==> name in m) && (name in m ==> r[name] == m[name])
  }

  /** The header loop stores, for every name, the value of the last field line
      of that name in the section, and leaves other names as they were. */
  lemma {:induction false} HeadersStoreLastValue(m: Request, s: Bytes, name: Bytes)
    ensures Headers(m, s).1 == Section(s).1
    ensures StoresLast(Headers(m, s).0, m, LastValue(Section(s).0, name), name)
    decreases |s|
  {
    match GetLine(s)
    case None =>
    case Some((line, rest)) =>
      if !EndsHeaders(line) {
        var lines := Section(rest).0;
        assert Section(s) == ([line] + lines, Section(rest).1);
        assert ([line] + lines)[1..] == lines;
        match ParseField(line)
        case None =>
          assert Headers(m, s) == Headers(m, rest);
          HeadersStoreLastValue(m, rest, name);
        case Some(f) =>
          assert Headers(m, s) == Headers(m[f.name := f.value], rest);
          HeadersStoreLastValue(m[f.name := f.value], rest, name);
      }
  }

  /** The request-line fields. */
  function LineMap(verb: Bytes, path: Bytes, version: Bytes): Request {
    map["method" := verb, "path" := path, "version" := version]
  }

  /** The request-line fields of `line`. */
  function LineFields(line: Bytes): Request {
    var (verb, path, version) := RequestLine(line);
    LineMap(verb, path, version)
  }

  /** The header-loop result with the body stored: the unread text up to the
      first NUL (`std::getline(stream, body, '\0')`). */
  function WithBody(h: (Request, Bytes)): (r: Request)
    ensures "body" in r && r["body"] == SplitAt(h.1, '\0').0
    ensures forall name :: name != "body" ==> (name in r <==> name in h.0)
    ensures forall name :: name != "body" && name in h.0 ==> r[name] == h.0[name]
  {
    h.0["body" := SplitAt(h.1, '\0').0]
  }

  /** server.cpp `parse_request`. */
  function ParseRequest(request: Bytes): (r: Request)
    ensures "body" in r
    ensures request != [] ==> "method" in r && "path" in r && "version" in r
    ensures request == [] ==> r == map["body" := []]
  {
    match GetLine(request)
    case None => map["body" := []]
    case Some((line, rest)) => WithBody(Headers(LineFields(line), rest))
  }

  /** What every field of a parsed non-empty request holds: the body is the
      text after the header section up to the first NUL; any other name holds
      the last header value of that name, or else its request-line value. */
  lemma ParseRequestFields(request: Bytes, name: Bytes)
    requires request != []
    ensures ParseRequest(request)["body"] == SplitAt(Section(GetLine(request).value.1).1, '\0').0
    ensures name != "body" ==>
              StoresLast(ParseRequest(request), LineFields(GetLine(request).value.0),
                         LastValue(Section(GetLine(request).value.1).0, name), name)
  {
    var line := GetLine(request).value.0;
    var rest := GetLine(request).value.1;
    assert ParseRequest(request) == WithBody(Headers(LineFields(line), rest));
    HeadersStoreLastValue(LineFields(line), rest, name);
  }

  /** The first line of a request is split off at its `'\n'`. */
  lemma ParseRequestOf(line: Bytes, rest: Bytes)
    requires '\n' !in line
    ensures ParseRequest(line + "\n" + rest) == WithBody(Headers(LineFields(line), rest))
  {
    SplitAtConcat(line, '\n', rest);
    assert GetLine(line + "\n" + rest) == Some((line, rest));
  }

  /** One step of the header loop over a field line. */
  lemma HeaderStep(m: Request, line: Bytes, rest: Bytes, f: Field)
    requires '\n' !in line && !EndsHeaders(line) && ParseField(line) == Some(f)
    ensures Headers(m, line + "\n" + rest) == Headers(m[f.name := f.value], rest)
  {
    SplitAtConcat(line, '\n', rest);
    assert GetLine(line + "\n" + rest) == Some((line, rest));
  }

  /** The blank line `"\r"` ends the header loop. */
  lemma HeaderEnd(m: Request, rest: Bytes)
    ensures Headers(m, "\r\n" + rest) == (m, rest)
  {
    assert "\r\n" + rest == "\r" + "\n" + rest;
    SplitAtConcat("\r", '\n', rest);
    assert GetLine("\r" + "\n" + rest) == Some(("\r", rest));
  }

  /** A non-empty run of non-whitespace characters. */
  predicate IsWord(w: Bytes) {
    w != [] && forall i :: 0 <= i < |w| ==> w[i] !in Whitespace
  }

  /** A request line of three words separated by single spaces. */
  lemma RequestLineOf(verb: Bytes, path: Bytes, version: Bytes, post: Bytes)
    requires IsWord(verb) && IsWord(path) && IsWord(version)
    requires post == [] || post[0] in Whitespace
    ensures RequestLine(verb + " " + path + " " + version + post) == (verb, path, version)
  {
    var rest2 := " " + version + post;
    var rest1 := " " + path + rest2;
    assert verb + " " + path + " " + version + post == [] + verb + rest1;
    assert rest1[0] == ' ' && rest2[0] == ' ';
    ReadWordOf([], verb, rest1);
    ReadWordOf(" ", path, rest2);
    ReadWordOf(" ", version, post);
  }

  /** A request of one word and nothing else has that word as its method and
      every other field empty. */
  lemma OneWordRequest(w: Bytes)
    requires IsWord(w)
    ensures var r := ParseRequest(w);
            && "method" in r && r["method"] == w && "path" in r && r["path"] == []
            && "version" in r && r["version"] == [] && r["body"] == []
  {
    OneWordLine(w);
    var m := LineMap(w, [], []);
    HeadersOfNothing(m);
    assert ParseRequest(w) == WithBody((m, []));
    OnlyRequestLine(w, [], []);
  }

  /** The header loop on an exhausted stream stores nothing. */
  lemma HeadersOfNothing(m: Request)
    ensures Headers(m, []) == (m, [])
  {
    assert GetLine([]) == None;
  }

  /** A request line alone, with nothing after it, parses to its words and an
      empty body. */
  lemma OnlyRequestLine(verb: Bytes, path: Bytes, version: Bytes)
    ensures var r := WithBody((LineMap(verb, path, version), []));
            && "method" in r && r["method"] == verb && "path" in r && r["path"] == path
            && "version" in r && r["version"] == version && r["body"] == []
  {
    assert SplitAt([], '\0').0 == [];
  }

  /** A one-word request is one line whose only word is that word. */
  lemma OneWordLine(w: Bytes)
    requires IsWord(w)
    ensures GetLine(w) == Some((w, []))
    ensures RequestLine(w) == (w, [], [])
  {
    assert w == [] + w + [];
    ReadWordOf([], w, []);
    assert '\n' !in w by {
      forall i | 0 <= i < |w| ensures w[i] != '\n' { }
    }
  }

  /** A field whose `name: value` line the parser reads back as is: no `':'`
      in the name, no line end anywhere, no blanks at the ends of the value. */
  predicate PlainField(f: Field) {
    && (forall i :: 0 <= i < |f.name| ==> f.name[i] != ':' && f.name[i] != '\n')
    && (forall i :: 0 <= i < |f.value| ==> f.value[i] != '\n')
    && f.value != [] && f.value[0] !in LeadingBlank && f.value[|f.value| - 1] !in TrailingBlank
  }

  lemma PlainFieldOf(name: Bytes, value: Bytes)
    requires forall i :: 0 <= i < |name| ==> name[i] != ':' && name[i] != '\n'
    requires forall i :: 0 <= i < |value| ==> value[i] != '\n'
    requires value != [] && value[0] !in LeadingBlank && value[|value| - 1] !in TrailingBlank
    ensures PlainField(Field(name, value))
  {
  }

  /** The header lines a client sends for `fs`, each ended by CRLF. */
  function FieldLines(fs: seq<Field>): Bytes {
    if fs == [] then [] else fs[0].name + ":" + " " + fs[0].value + "\r" + "\n" + FieldLines(fs[1..])
  }

  /** `m` updated by the fields `fs` in order. */
  function Store(m: Request, fs: seq<Field>): Request
    decreases |fs|
  {
    if fs == [] then m else Store(m[fs[0].name := fs[0].value], fs[1..])
  }

  /** After the updates, a field not overwritten by a later one of the same
      name holds its value. */
  lemma {:induction false} StoreHoldsLast(m: Request, fs: seq<Field>, i: nat)
    requires i < |fs| && forall j :: i < j < |fs| ==> fs[j].name != fs[i].name
    ensures fs[i].name in Store(m, fs) && Store(m, fs)[fs[i].name] == fs[i].value
    decreases |fs|
  {
    if i == 0 {
      StoreKeeps(m[fs[0].name := fs[0].value], fs[1..], fs[0].name);
    } else {
      StoreHoldsLast(m[fs[0].name := fs[0].value], fs[1..], i - 1);
    }
  }

  /** Names no field updates keep what `m` held. */
  lemma {:induction false} StoreKeeps(m: Request, fs: seq<Field>, name: Bytes)
    requires forall j :: 0 <= j < |fs| ==> fs[j].name != name
    ensures name in Store(m, fs) <==> name in m
    ensures name in m ==> Store(m, fs)[name] == m[name]
    decreases |fs|
  {
    if fs != [] {
      assert fs[0].name != name;
      StoreKeeps(m[fs[0].name := fs[0].value], fs[1..], name);
    }
  }

  lemma HeaderLineStep(m: Request, name: Bytes, value: Bytes, rest: Bytes)
    requires PlainField(Field(name, value))
    ensures Headers(m, name + ":" + " " + value + "\r" + "\n" + rest) == Headers(m[name := value], rest)
  {
    var line := name + ":" + " " + value + "\r";
    assert ':' !in name by {
      forall i | 0 <= i < |name| ensures name[i] != ':' { }
    }
    FieldOf(name, " ", value, "\r");
    assert line[|name|] == ':';
    assert forall i :: 0 <= i < |line| ==> line[i] != '\n' by {
      forall i | 0 <= i < |line| ensures line[i] != '\n' {
        if i < |name| {
          assert line[i] == name[i];
        } else if |name| + 2 <= i < |name| + 2 + |value| {
          assert line[i] == value[i - |name| - 2];
        }
      }
    }
    HeaderStep(m, line, rest, Field(name, value));
  }

  lemma FieldLinesCons(fs: seq<Field>, rest: Bytes)
    requires fs != []
    ensures FieldLines(fs) + rest
         == fs[0].name + ":" + " " + fs[0].value + "\r" + "\n" + (FieldLines(fs[1..]) + rest)
  {
  }

  /** The header loop over the lines of `fs` stores the fields in order. */
  lemma {:induction false} HeadersOfFieldLines(m: Request, fs: seq<Field>, rest: Bytes)
    requires forall i :: 0 <= i < |fs| ==> PlainField(fs[i])
    ensures Headers(m, FieldLines(fs) + rest) == Headers(Store(m, fs), rest)
    decreases |fs|
  {
    if fs != [] {
      var f := fs[0];
      assert PlainField(fs[0]);
      FieldLinesCons(fs, rest);
      HeaderLineStep(m, f.name, f.value, FieldLines(fs[1..]) + rest);
      HeadersOfFieldLines(m[f.name := f.value], fs[1..], rest);
    } else {
      assert FieldLines(fs) + rest == rest;
    }
  }

  /** The text of a request as a client writes it: request line, field lines
      and blank line, each ended by CRLF, then the body. */
  function RequestText(verb: Bytes, path: Bytes, version: Bytes, fs: seq<Field>, body: Bytes): Bytes {
    verb + " " + path + " " + version + "\r\n" + FieldLines(fs) + "\r\n" + body
  }

  lemma RequestTextShape(verb: Bytes, path: Bytes, version: Bytes, fs: seq<Field>, body: Bytes)
    requires IsWord(verb) && IsWord(path) && IsWord(version)
    ensures '\n' !in verb + " " + path + " " + version + "\r"
    ensures RequestText(verb, path, version, fs, body)
         == verb + " " + path + " " + version + "\r" + "\n" + (FieldLines(fs) + ("\r\n" + body))
  {
    assert '\n' in Whitespace;
  }

  /** Parsing the text of a well-formed request recovers it: the body, and
      under every other name what the request line and then the fields, stored
      in order, leave there. */
  lemma ParseRequestText(request: Bytes, verb: Bytes, path: Bytes, version: Bytes, fs: seq<Field>, body: Bytes)
    requires request == RequestText(verb, path, version, fs, body)
    requires IsWord(verb) && IsWord(path) && IsWord(version)
    requires forall i :: 0 <= i < |fs| ==> PlainField(fs[i])
    requires forall i :: 0 <= i < |body| ==> body[i] != '\0'
    ensures "body" in ParseRequest(request) && ParseRequest(request)["body"] == body
    ensures var m := Store(LineMap(verb, path, version), fs);
            forall name :: name != "body" ==>
              && (name in ParseRequest(request) <==> name in m)
              && (name in m ==> ParseRequest(request)[name] == m[name])
  {
    var line := verb + " " + path + " " + version + "\r";
    RequestTextShape(verb, path, version, fs, body);
    ParseRequestOf(line, FieldLines(fs) + ("\r\n" + body));
    RequestLineOf(verb, path, version, "\r");
    assert LineFields(line) == LineMap(verb, path, version);
    HeadersOfFieldLines(LineFields(line), fs, "\r\n" + body);
    HeaderEnd(Store(LineFields(line), fs), body);
    assert '\0' !in body by {
      forall i | 0 <= i < |body| ensures body[i] != '\0' { }
    }
  }
}
