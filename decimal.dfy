/** Decimal text as the C++ standard library writes and reads it for `int`:
    `std::to_string(int)` and extraction `is >> n` from an `std::istringstream`,
    which `foldingint` (Folding.cpp:80-98) uses to build and re-parse its string.
    `int` is 32 bits wide; extraction of a value outside that range fails.
 */
module Decimal {

  datatype Option<T> = None | Some(value: T)

  const IntMin: int := -0x8000_0000
  const IntMax: int := 0x7fff_ffff

  predicate InIntRange(n: int) { IntMin <= n <= IntMax }

  predicate IsDigit(c: char) { '0' <= c <= '9' }

  /** The characters `isspace` accepts in the C locale: space, \t, \n, \v, \f, \r. */
  predicate IsSpace(c: char) { c == ' ' || '\t' <= c <= '\r' }

  predicate AllDigits(s: string) { forall i :: 0 <= i < |s| ==> IsDigit(s[i]) }

  function DigitChar(d: int): (c: char)
    requires 0 <= d <= 9
    ensures IsDigit(c) && c as int - '0' as int == d
  {
    (d + '0' as int) as char
  }

  function DigitValue(c: char): (d: int)
    requires IsDigit(c)
    ensures 0 <= d <= 9 && DigitChar(d) == c
  {
    c as int - '0' as int
  }

  /** The number a string of decimal digits denotes, most significant digit first. */
  function ValueOf(s: string): nat
    requires AllDigits(s)
  {
    if s == [] then 0 else ValueOf(s[..|s| - 1]) * 10 + DigitValue(s[|s| - 1])
  }

  /** `std::to_string` of a non-negative number: its shortest decimal numeral. */
  function NatToString(n: nat): (s: string)
    ensures 1 <= |s| && AllDigits(s) && ValueOf(s) == n
    ensures s[0] == '0' ==> n == 0
    decreases n
  {
    if n < 10 then [DigitChar(n)]
    else
      var s := NatToString(n / 10) + [DigitChar(n % 10)];
      assert s[..|s| - 1] == NatToString(n / 10);
      s
  }

  /** `std::to_string(int)`: a minus sign, when negative, then the magnitude. */
  function IntToString(n: int): (s: string)
    ensures 1 <= |s| && !IsSpace(s[0])
    ensures n >= 0 <==> IsDigit(s[0])
    ensures n < 0 <==> s[0] == '-'
  {
    if n < 0 then "-" + NatToString(-n) else NatToString(n)
  }

  /** `r` is `s` with some whitespace dropped from the front. */
  predicate DropsLeadingSpaces(s: string, r: string)
  {
    |r| <= |s| && r == s[|s| - |r|..] && forall i :: 0 <= i < |s| - |r| ==> IsSpace(s[i])
  }

  /** Whitespace skipped before a number (`std::skipws`). */
  function SkipSpaces(s: string): (r: string)
    ensures |r| <= |s|
    ensures r == [] || !IsSpace(r[0])
  {
    if s != [] && IsSpace(s[0]) then SkipSpaces(s[1..]) else s
  }

  /** Exactly the leading whitespace is skipped: what is dropped is all
      whitespace, and what is kept is the rest of `s`, starting at a non-space. */
  lemma {:induction false} SkipSpacesDropsLeading(s: string)
    ensures DropsLeadingSpaces(s, SkipSpaces(s))
    decreases |s|
  {
    if s != [] && IsSpace(s[0]) {
      SkipSpacesDropsLeading(s[1..]);
      var r := SkipSpaces(s[1..]);
      assert s[1..][|s| - 1 - |r|..] == s[|s| - |r|..];
      forall i | 0 <= i < |s| - |r| ensures IsSpace(s[i]) {
        if i > 0 { assert s[i] == s[1..][i - 1]; }
      }
    }
  }

  /** Length of the longest prefix of decimal digits. */
  function DigitRun(s: string): (k: nat)
    ensures k <= |s| && AllDigits(s[..k]) && (k == |s| || !IsDigit(s[k]))
  {
    if s != [] && IsDigit(s[0]) then
      var k := 1 + DigitRun(s[1..]);
      assert s[..k] == [s[0]] + s[1..][..k - 1];
      k
    else 0
  }

  /** The run of digits at the front, as a number, and the text after it. */
  function ReadDigits(s: string): (r: Option<(nat, string)>)
    ensures r.Some? ==> |r.value.1| < |s|
  {
    var k := DigitRun(s);
    if k == 0 then None else Some((ValueOf(s[..k]), s[k..]))
  }

  /** The optional sign at the front: whether it is a minus, and the text after it. */
  function Sign(t: string): (r: (bool, string))
    ensures |r.1| <= |t|
  {
    if |t| > 0 && (t[0] == '-' || t[0] == '+') then (t[0] == '-', t[1..]) else (false, t)
  }

  /** One extraction `is >> n`: skip whitespace, read an optional sign and the
      longest run of digits. No digit, or a value outside `int`, sets the fail
      bit (`None`); otherwise the value and the text after it. */
  function Extract(s: string): (r: Option<(int, string)>)
    ensures r.Some? ==> InIntRange(r.value.0)
    ensures r.Some? ==> |r.value.1| < |s|
  {
    var (negative, body) := Sign(SkipSpaces(s));
    match ReadDigits(body)
    case None => None
    case Some((magnitude, rest)) => Signed(negative, magnitude, rest)
  }

  /** The signed value of a magnitude, or failure when it does not fit an `int`. */
  function Signed(negative: bool, magnitude: nat, rest: string): (r: Option<(int, string)>)
    ensures r.Some? ==> InIntRange(r.value.0) && r.value.1 == rest
  {
    var n := if negative then -(magnitude as int) else magnitude;
    if InIntRange(n) then Some((n, rest)) else None
  }

  /** `std::vector<int>(std::istream_iterator<int>(is), {})`: extract until the
      first failed extraction; the failed one contributes nothing. */
  function ReadInts(s: string): (r: seq<int>)
    ensures |r| <= |s|
    ensures forall i :: 0 <= i < |r| ==> InIntRange(r[i])
    decreases |s|
  {
    var e := Extract(s);
    if e.None? then [] else [e.value.0] + ReadInts(e.value.1)
  }

  // ---------------------------------------------------------------------------

  /** A digit run followed by a non-digit (or the end) is read whole. */
  lemma {:induction false} DigitRunOf(d: string, rest: string)
    requires AllDigits(d) && (rest == [] || !IsDigit(rest[0]))
    ensures DigitRun(d + rest) == |d|
    decreases |d|
  {
    if d != [] {
      assert (d + rest)[1..] == d[1..] + rest;
      DigitRunOf(d[1..], rest);
    } else {
      assert d + rest == rest;
    }
  }

  /** A numeral followed by a non-digit (or the end) is read whole. */
  lemma ReadDigitsOf(d: string, rest: string)
    requires AllDigits(d) && |d| >= 1 && (rest == [] || !IsDigit(rest[0]))
    ensures ReadDigits(d + rest) == Some((ValueOf(d), rest))
  {
    DigitRunOf(d, rest);
    assert (d + rest)[..|d|] == d && (d + rest)[|d|..] == rest;
  }

  /** An unsigned numeral is read as its value, when that fits an `int`. */
  lemma ExtractUnsigned(d: string, rest: string)
    requires AllDigits(d) && |d| >= 1 && (rest == [] || !IsDigit(rest[0]))
    ensures Extract(d + rest) == Signed(false, ValueOf(d), rest)
  {
    var s := d + rest;
    assert s[0] == d[0];
    assert SkipSpaces(s) == s;
    assert Sign(s) == (false, s);
    ReadDigitsOf(d, rest);
  }

  /** A minus sign and a numeral are read as the negated value, when that fits an `int`. */
  lemma ExtractNegative(d: string, rest: string)
    requires AllDigits(d) && |d| >= 1 && (rest == [] || !IsDigit(rest[0]))
    ensures Extract(['-'] + (d + rest)) == Signed(true, ValueOf(d), rest)
  {
    var tail := d + rest;
    var s := ['-'] + tail;
    assert s[0] == '-' && s[1..] == tail;
    assert SkipSpaces(s) == s;
    assert Sign(s) == (true, tail);
    ReadDigitsOf(d, rest);
  }

  /** Reading back what `std::to_string` wrote gives the number and stops where
      the numeral ends. */
  lemma ExtractToString(n: int, rest: string)
    requires InIntRange(n)
    requires rest == [] || !IsDigit(rest[0])
    ensures Extract(IntToString(n) + rest) == Some((n, rest))
  {
    if n < 0 {
      ExtractNegative(NatToString(-n), rest);
      assert IntToString(n) + rest == ['-'] + (NatToString(-n) + rest);
    } else {
      ExtractUnsigned(NatToString(n), rest);
    }
  }

  /** Leading whitespace does not change what one extraction reads. */
  lemma ExtractSkipsSpace(c: char, s: string)
    requires IsSpace(c)
    ensures Extract([c] + s) == Extract(s)
  {
    assert ([c] + s)[1..] == s;
    assert SkipSpaces([c] + s) == SkipSpaces(s);
  }

  /** A successful extraction contributes its value and reading goes on after it. */
  lemma ReadIntsStep(s: string, n: int, rest: string)
    requires Extract(s) == Some((n, rest))
    ensures ReadInts(s) == [n] + ReadInts(rest)
  {
  }

  /** A failed extraction ends the reading. */
  lemma ReadIntsStop(s: string)
    requires Extract(s) == None
    ensures ReadInts(s) == []
  {
  }

  /** Reading past a whitespace character reads the rest. */
  lemma ReadIntsSkipsSpace(c: char, s: string)
    requires IsSpace(c)
    ensures ReadInts([c] + s) == ReadInts(s)
  {
    ExtractSkipsSpace(c, s);
    var e := Extract(s);
    if e.None? {
      ReadIntsStop([c] + s);
      ReadIntsStop(s);
    } else {
      ReadIntsStep([c] + s, e.value.0, e.value.1);
      ReadIntsStep(s, e.value.0, e.value.1);
    }
  }

  /** The numerals of `xs`, written by `std::to_string`, separated by single spaces. */
  function Joined(xs: seq<int>): string
  {
    if xs == [] then ""
    else if |xs| == 1 then IntToString(xs[0])
    else IntToString(xs[0]) + ([' '] + Joined(xs[1..]))
  }

  /** A numeral written by `std::to_string`, followed by a non-digit or the end,
      contributes its value and reading goes on after it. */
  lemma ReadIntsNumeral(n: int, rest: string)
    requires InIntRange(n)
    requires rest == [] || !IsDigit(rest[0])
    ensures ReadInts(IntToString(n) + rest) == [n] + ReadInts(rest)
  {
    ExtractToString(n, rest);
    ReadIntsStep(IntToString(n) + rest, n, rest);
  }

  lemma ReadIntsSingle(n: int)
    requires InIntRange(n)
    ensures ReadInts(IntToString(n)) == [n]
  {
    ReadIntsNumeral(n, []);
    assert IntToString(n) + [] == IntToString(n);
    ReadIntsStop([]);
  }

  lemma ReadIntsNumeralSpace(n: int, tail: string)
    requires InIntRange(n)
    ensures ReadInts(IntToString(n) + ([' '] + tail)) == [n] + ReadInts(tail)
  {
    ReadIntsNumeral(n, [' '] + tail);
    ReadIntsSkipsSpace(' ', tail);
  }

  lemma ReadIntsJoinedCons(xs: seq<int>)
    requires |xs| >= 2 && InIntRange(xs[0])
    requires ReadInts(Joined(xs[1..])) == xs[1..]
    ensures ReadInts(Joined(xs)) == xs
  {
    ReadIntsNumeralSpace(xs[0], Joined(xs[1..]));
    assert xs == [xs[0]] + xs[1..];
  }

  /** The `istream_iterator` range reads back every `int` written out by
      `std::to_string` and separated by spaces, in order. */
  lemma {:induction false} ReadIntsJoined(xs: seq<int>)
    requires forall i :: 0 <= i < |xs| ==> InIntRange(xs[i])
    ensures ReadInts(Joined(xs)) == xs
    decreases |xs|
  {
    if xs == [] {
      ReadIntsStop("");
    } else if |xs| == 1 {
      ReadIntsSingle(xs[0]);
      assert xs == [xs[0]];
    } else {
      ReadIntsJoined(xs[1..]);
      ReadIntsJoinedCons(xs);
    }
  }
}
