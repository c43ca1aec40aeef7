/** Decimal numbers as the server writes and reads them: `std::to_string`
    for `Content-Length` values in responses, and `std::stoul` / `std::stoi`
    (base 10, via `strtoul` / `strtol`) for `Content-Length` values in requests. */
module Numbers {
  import opened Wrappers
  import opened Text

  /** The largest `unsigned long` (64-bit) and the `int` (32-bit) range. */
  const ULongMax: nat := 0xFFFF_FFFF_FFFF_FFFF
  const IntMax: int := 0x7FFF_FFFF
  const IntMin: int := -0x8000_0000

  /** `std::invalid_argument` (no digits) and `std::out_of_range` (too large). */
  datatype ConversionError = InvalidArgument | OutOfRange

  predicate IsDigit(c: char) { '0' <= c <= '9' }

  predicate AllDigits(s: Bytes) {
    forall i :: 0 <= i < |s| ==> IsDigit(s[i])
  }

  function DigitValue(c: char): (d: nat)
    requires IsDigit(c)
    ensures d < 10
  {
    c as int - '0' as int
  }

  function DigitChar(d: nat): (c: char)
    requires d < 10
    ensures IsDigit(c) && DigitValue(c) == d
  {
    ('0' as int + d) as char
  }

  /** The number a string of decimal digits denotes, most significant digit first. */
  function ValueOf(s: Bytes): nat
    requires AllDigits(s)
  {
    if s == [] then 0 else 10 * ValueOf(s[..|s| - 1]) + DigitValue(s[|s| - 1])
  }

  /** `std::to_string(n)`: the shortest decimal rendering of `n`. */
  function ToDecimal(n: nat): (r: Bytes)
    ensures r != [] && AllDigits(r)
    ensures ValueOf(r) == n
    ensures r[0] == '0' ==> n == 0 && |r| == 1
  {
    if n < 10 then [DigitChar(n)]
    else
      var prefix := ToDecimal(n / 10);
      var r := prefix + [DigitChar(n % 10)];
      assert r[..|r| - 1] == prefix;
      r
  }

  /** The longest prefix of `s` made of decimal digits. */
  function LeadingDigits(s: Bytes): (r: Bytes)
    ensures |r| <= |s| && r == s[..|r|] && AllDigits(r)
    ensures |r| == |s| || !IsDigit(s[|r|])
  {
    if s == [] || !IsDigit(s[0]) then []
    else
      var d := LeadingDigits(s[1..]);
      assert [s[0]] + d == s[..|d| + 1];
      [s[0]] + d
  }

  lemma {:induction false} LeadingDigitsOf(d: Bytes, post: Bytes)
    requires AllDigits(d)
    requires post == [] || !IsDigit(post[0])
    ensures LeadingDigits(d + post) == d
  {
    if d != [] {
      assert (d + post)[1..] == d[1..] + post;
      LeadingDigitsOf(d[1..], post);
      assert d == [d[0]] + d[1..];
    }
  }

  /** The common front end of `strtoul` and `strtol` in base 10: skip
      whitespace, read an optional sign, then the digits that follow. */
  function SignedDigits(s: Bytes): (r: (bool, Bytes))
    ensures AllDigits(r.1)
  {
    var t := TrimLeft(s, Whitespace);
    if t != [] && (t[0] == '+' || t[0] == '-') then (t[0] == '-', LeadingDigits(t[1..]))
    else (false, LeadingDigits(t))
  }

  lemma PlainDigits(s: Bytes)
    ensures s != [] && AllDigits(s) ==> SignedDigits(s) == (false, s)
  {
    if s != [] && AllDigits(s) {
      assert [] + s == s && s + [] == s;
      assert IsDigit(s[0]) && s[0] !in Whitespace;
      TrimLeftSkips([], s, Whitespace);
      UnsignedDigits(s, s);
      LeadingDigitsOf(s, []);
    }
  }

  /** `std::stoul(s)`. A leading `-` is accepted and negates modulo 2^64, as
      `strtoul` does. */
  function Stoul(s: Bytes): (r: Result<nat, ConversionError>)
    ensures r.Success? ==> r.value <= ULongMax
    ensures (forall i :: 0 <= i < |s| ==> !IsDigit(s[i])) ==> r == Failure(InvalidArgument)
    ensures s != [] && AllDigits(s) && ValueOf(s) <= ULongMax ==> r == Success(ValueOf(s))
  {
    var (negative, digits) := SignedDigits(s);
    PlainDigits(s);
    if digits == [] then Failure(InvalidArgument)
    else
      var v := ValueOf(digits);
      if v > ULongMax then Failure(OutOfRange)
      else if negative then Success((ULongMax + 1 - v) % (ULongMax + 1))
      else Success(v)
  }

  /** `std::stoi(s)`: `strtol`, then a range check against `int`. */
  function Stoi(s: Bytes): (r: Result<int, ConversionError>)
    ensures r.Success? ==> IntMin <= r.value <= IntMax
    ensures (forall i :: 0 <= i < |s| ==> !IsDigit(s[i])) ==> r == Failure(InvalidArgument)
    ensures s != [] && AllDigits(s) && ValueOf(s) <= IntMax ==> r == Success(ValueOf(s))
  {
    var (negative, digits) := SignedDigits(s);
    PlainDigits(s);
    if digits == [] then Failure(InvalidArgument)
    else
      var v: int := if negative then -(ValueOf(digits) as int) else ValueOf(digits);
      if v < IntMin || v > IntMax then Failure(OutOfRange) else Success(v)
  }

  /** Text whose first non-blank character is a digit has no sign. */
  lemma UnsignedDigits(s: Bytes, t: Bytes)
    requires t == TrimLeft(s, Whitespace) && t != [] && IsDigit(t[0])
    ensures SignedDigits(s) == (false, LeadingDigits(t))
  {
  }

  lemma SignedDigitsOf(pre: Bytes, d: Bytes, post: Bytes)
    requires forall i :: 0 <= i < |pre| ==> pre[i] in Whitespace
    requires d != [] && AllDigits(d)
    requires post == [] || !IsDigit(post[0])
    ensures SignedDigits(pre + d + post) == (false, d)
  {
    var x := d + post;
    assert pre + d + post == pre + x;
    assert x[0] == d[0] && IsDigit(x[0]);
    assert x[0] !in Whitespace;
    TrimLeftSkips(pre, x, Whitespace);
    UnsignedDigits(pre + x, x);
    LeadingDigitsOf(d, post);
  }

  /** `std::stoul` reads a run of digits after any leading whitespace and up
      to the first non-digit. */
  lemma StoulReadsDigits(pre: Bytes, d: Bytes, post: Bytes)
    requires forall i :: 0 <= i < |pre| ==> pre[i] in Whitespace
    requires d != [] && AllDigits(d) && ValueOf(d) <= ULongMax
    requires post == [] || !IsDigit(post[0])
    ensures Stoul(pre + d + post) == Success(ValueOf(d))
  {
    SignedDigitsOf(pre, d, post);
  }

  /** What the framing code relies on: `std::stoul` reads back what
      `std::to_string` wrote. */
  lemma StoulReadsDecimal(pre: Bytes, n: nat, post: Bytes)
    requires forall i :: 0 <= i < |pre| ==> pre[i] in Whitespace
    requires post == [] || !IsDigit(post[0])
    requires n <= ULongMax
    ensures Stoul(pre + ToDecimal(n) + post) == Success(n)
  {
    StoulReadsDigits(pre, ToDecimal(n), post);
  }

  /** The same round trip for `std::stoi`, within the `int` range. */
  lemma StoiReadsDecimal(pre: Bytes, n: nat, post: Bytes)
    requires forall i :: 0 <= i < |pre| ==> pre[i] in Whitespace
    requires post == [] || !IsDigit(post[0])
    requires n <= IntMax
    ensures Stoi(pre + ToDecimal(n) + post) == Success(n)
  {
    SignedDigitsOf(pre, ToDecimal(n), post);
  }
}
