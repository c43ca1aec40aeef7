/** Character-level building blocks: the pieces of `std::string` and
    `std::istringstream` behaviour that the request parsers and the framing
    code rely on. A C++ `char` is modelled as a Dafny `char`. */
module Text {
  import opened Wrappers

  type Bytes = seq<char>

  /** The characters `isspace` accepts in the classic "C" locale; `operator>>`
      and `strtol`/`strtoul` skip exactly these. */
  const Whitespace: set<char> := {' ', '\t', '\n', '\U{0B}', '\U{0C}', '\r'}

  /** `pat` occurs in `s` starting at index `i`. */
  predicate MatchesAt(s: Bytes, pat: Bytes, i: nat) {
    i + |pat| <= |s| && s[i..i + |pat|] == pat
  }

  /** `s.find(pat, from)`: the first index at or after `from` where `pat` occurs. */
  function Find(s: Bytes, pat: Bytes, from: nat): (r: Option<nat>)
    ensures r.Some? ==> from <= r.value && MatchesAt(s, pat, r.value)
    ensures r.Some? ==> forall j :: from <= j < r.value ==> !MatchesAt(s, pat, j)
    ensures r.None? ==> forall j :: from <= j ==> !MatchesAt(s, pat, j)
    decreases |s| - from
  {
    if from + |pat| > |s| then None
    else if s[from..from + |pat|] == pat then Some(from)
    else Find(s, pat, from + 1)
  }

  /** `s.find(pat) != npos`. */
  predicate Contains(s: Bytes, pat: Bytes) {
    Find(s, pat, 0).Some?
  }

  lemma ContainsIff(s: Bytes, pat: Bytes)
    ensures Contains(s, pat) <==> exists i :: MatchesAt(s, pat, i)
  {
    if Contains(s, pat) {
      assert MatchesAt(s, pat, Find(s, pat, 0).value);
    }
  }

  /** The text up to the first `delim` and the text after it; the whole of `s`
      and nothing when `delim` does not occur. This is `std::getline(stream, line, delim)`
      on the unread text `s` (the delimiter is consumed, not stored). */
  function SplitAt(s: Bytes, delim: char): (r: (Bytes, Bytes))
    ensures delim !in r.0
    ensures delim in s ==> s == r.0 + [delim] + r.1
    ensures delim !in s ==> r == (s, [])
    ensures s != [] ==> |r.1| < |s|
  {
    if s == [] then ([], [])
    else if s[0] == delim then ([], s[1..])
    else
      var (line, rest) := SplitAt(s[1..], delim);
      assert s == [s[0]] + s[1..];
      ([s[0]] + line, rest)
  }

  lemma {:induction false} SplitAtConcat(a: Bytes, delim: char, b: Bytes)
    requires delim !in a
    ensures SplitAt(a + [delim] + b, delim) == (a, b)
  {
    if a != [] {
      var s := a + [delim] + b;
      assert s[0] == a[0] && s[1..] == a[1..] + [delim] + b;
      SplitAtConcat(a[1..], delim, b);
      assert a == [a[0]] + a[1..];
    }
  }

  /** `std::getline(stream, line)`: `None` when the stream has nothing left to
      read (the call fails), else the line without its `'\n'` and the unread rest. */
  function GetLine(s: Bytes): (r: Option<(Bytes, Bytes)>)
    ensures r.None? <==> s == []
    ensures r.Some? ==> '\n' !in r.value.0 && |r.value.1| < |s|
    ensures r.Some? && '\n' in s ==> s == r.value.0 + "\n" + r.value.1
    ensures r.Some? && '\n' !in s ==> r.value == (s, [])
  {
    if s == [] then None else Some(SplitAt(s, '\n'))
  }

  /** Drop the leading characters that belong to `drop`
      (`s.erase(0, s.find_first_not_of(drop))`). */
  function TrimLeft(s: Bytes, drop: set<char>): (r: Bytes)
    ensures |r| <= |s| && r == s[|s| - |r|..]
    ensures forall i :: 0 <= i < |s| - |r| ==> s[i] in drop
    ensures r == [] || r[0] !in drop
  {
    if s != [] && s[0] in drop then TrimLeft(s[1..], drop) else s
  }

  /** Drop the trailing characters that belong to `drop`
      (`s.erase(s.find_last_not_of(drop) + 1)`, where `npos + 1` wraps to 0). */
  function TrimRight(s: Bytes, drop: set<char>): (r: Bytes)
    ensures |r| <= |s| && r == s[..|r|]
    ensures forall i :: |r| <= i < |s| ==> s[i] in drop
    ensures r == [] || r[|r| - 1] !in drop
  {
    if s != [] && s[|s| - 1] in drop then TrimRight(s[..|s| - 1], drop) else s
  }

  lemma {:induction false} TrimLeftSkips(pre: Bytes, x: Bytes, drop: set<char>)
    requires forall i :: 0 <= i < |pre| ==> pre[i] in drop
    requires x == [] || x[0] !in drop
    ensures TrimLeft(pre + x, drop) == x
  {
    if pre != [] {
      assert (pre + x)[1..] == pre[1..] + x;
      TrimLeftSkips(pre[1..], x, drop);
    }
  }

  lemma {:induction false} TrimRightSkips(x: Bytes, post: Bytes, drop: set<char>)
    requires forall i :: 0 <= i < |post| ==> post[i] in drop
    requires x == [] || x[|x| - 1] !in drop
    ensures TrimRight(x + post, drop) == x
  {
    if post == [] {
      assert x + post == x;
    } else {
      assert (x + post)[..|x + post| - 1] == x + post[..|post| - 1];
      TrimRightSkips(x, post[..|post| - 1], drop);
    }
  }

  /** The longest prefix of `s` holding no character of `stop`, and the rest. */
  function SpanNot(s: Bytes, stop: set<char>): (r: (Bytes, Bytes))
    ensures s == r.0 + r.1
    ensures forall i :: 0 <= i < |r.0| ==> r.0[i] !in stop
    ensures r.1 == [] || r.1[0] in stop
  {
    if s == [] || s[0] in stop then ([], s)
    else
      var (word, rest) := SpanNot(s[1..], stop);
      assert s == [s[0]] + s[1..];
      ([s[0]] + word, rest)
  }

  lemma {:induction false} SpanNotOf(w: Bytes, rest: Bytes, stop: set<char>)
    requires forall i :: 0 <= i < |w| ==> w[i] !in stop
    requires rest == [] || rest[0] in stop
    ensures SpanNot(w + rest, stop) == (w, rest)
  {
    if w == [] {
      assert w + rest == rest;
    } else {
      assert (w + rest)[0] == w[0] && (w + rest)[1..] == w[1..] + rest;
      SpanNotOf(w[1..], rest, stop);
      assert w == [w[0]] + w[1..];
    }
  }

  /** `stream >> word` on the unread text `s`: skip whitespace, then take the
      longest run of non-whitespace. The word is empty exactly when only
      whitespace was left, in which case nothing is left either. */
  function ReadWord(s: Bytes): (r: (Bytes, Bytes))
    ensures |r.0| + |r.1| <= |s| && s[|s| - |r.0| - |r.1|..] == r.0 + r.1
    ensures forall i :: 0 <= i < |s| - |r.0| - |r.1| ==> s[i] in Whitespace
    ensures forall i :: 0 <= i < |r.0| ==> r.0[i] !in Whitespace
    ensures r.1 == [] || r.1[0] in Whitespace
    ensures r.0 == [] ==> r.1 == []
  {
    var t := TrimLeft(s, Whitespace);
    SpanNot(t, Whitespace)
  }

  /** Whitespace, then a word, then whitespace or nothing: `>>` yields that word. */
  lemma ReadWordOf(pre: Bytes, w: Bytes, rest: Bytes)
    requires forall i :: 0 <= i < |pre| ==> pre[i] in Whitespace
    requires w != [] && forall i :: 0 <= i < |w| ==> w[i] !in Whitespace
    requires rest == [] || rest[0] in Whitespace
    ensures ReadWord(pre + w + rest) == (w, rest)
  {
    assert pre + w + rest == pre + (w + rest);
    assert (w + rest)[0] == w[0];
    TrimLeftSkips(pre, w + rest, Whitespace);
    SpanNotOf(w, rest, Whitespace);
  }
}
