/**
 * The C library's base-10 conversions as the command-line parsers use them:
 * `std::stol` (Assignment4/MergeSort_Code/general_helpers.hpp:19,
 * Assignment3/Miniz_Code/utility.hpp:163) and `std::stoull`
 * (Assignment2/Collatz_Code/sequential_collatz.cpp:43-44,
 * parallel_collatz.cpp:186-187).
 *
 * Both skip leading white space, accept one optional sign, then read the
 * longest run of decimal digits; they fail with `invalid_argument` when no
 * digit follows and with `out_of_range` when the magnitude does not fit.
 * `stoull` negates a minus-signed magnitude modulo 2^64, as `strtoull` does.
 * Both report how many characters they consumed.
 */
module Numerals {
  import opened Outcomes

  const LONG_MAX: nat := 0x7FFF_FFFF_FFFF_FFFF
  const ULLONG_MAX: nat := 0xFFFF_FFFF_FFFF_FFFF
  /** 2^64, the modulus of `unsigned long long` arithmetic. */
  const WORD: nat := ULLONG_MAX + 1
  const INT_MAX: nat := 0x7FFF_FFFF

  /** The white space of the C locale's `isspace`. */
  predicate IsSpace(c: char) {
    c == ' ' || c == '\t' || c == '\n' || c == '\U{B}' || c == '\U{C}' || c == '\r'
  }

  predicate IsDigit(c: char) {
    '0' <= c <= '9'
  }

  predicate AllDigits(s: string) {
    forall i :: 0 <= i < |s| ==> IsDigit(s[i])
  }

  /** Number of white-space characters of `s` from position `i` on, up to the first other character. */
  function SpaceRun(s: string, i: nat): (n: nat)
    requires i <= |s|
    ensures i + n <= |s|
    ensures forall k :: i <= k < i + n ==> IsSpace(s[k])
    ensures i + n < |s| ==> !IsSpace(s[i + n])
    decreases |s| - i
  {
    if i == |s| || !IsSpace(s[i]) then 0 else 1 + SpaceRun(s, i + 1)
  }

  /** Number of digits of `s` from position `i` on, up to the first non-digit. */
  function DigitRun(s: string, i: nat): (n: nat)
    requires i <= |s|
    ensures i + n <= |s|
    ensures forall k :: i <= k < i + n ==> IsDigit(s[k])
    ensures i + n < |s| ==> !IsDigit(s[i + n])
    decreases |s| - i
  {
    if i == |s| || !IsDigit(s[i]) then 0 else 1 + DigitRun(s, i + 1)
  }

  function DigitValue(c: char): nat
    requires IsDigit(c)
  {
    c as int - '0' as int
  }

  function DigitChar(d: nat): (c: char)
    requires d < 10
    ensures IsDigit(c) && DigitValue(c) == d
  {
    ('0' as int + d) as char
  }

  /** The number a string of digits denotes, most significant digit first. */
  function DigitsValue(s: string): nat
    requires AllDigits(s)
    decreases |s|
  {
    if |s| == 0 then 0 else DigitsValue(s[..|s| - 1]) * 10 + DigitValue(s[|s| - 1])
  }

  /** The canonical decimal spelling of `n`: no sign, no leading zero. */
  function Show(n: nat): (s: string)
    ensures |s| > 0 && AllDigits(s)
    decreases n
  {
    if n < 10 then [DigitChar(n)] else Show(n / 10) + [DigitChar(n % 10)]
  }

  /** The decimal spelling of a signed value, with `-` for negatives. */
  function ShowInt(i: int): (s: string)
    ensures |s| > 0 && IsDigit(s[|s| - 1])
  {
    if i < 0 then "-" + Show(-i) else Show(i)
  }

  /** What the conversion reads: the sign, and the digit run `s[start..end]`. */
  datatype Scan = Scan(negative: bool, start: nat, end: nat)

  /**
   * Leading white space, one optional sign, then the longest digit run.
   * `None` when no digit follows.  The run is nonempty and maximal: the
   * scan reads as far as the number goes.
   */
  function ScanDecimal(s: string): (r: Option<Scan>)
    ensures r.Some? ==> r.value.start < r.value.end <= |s| && AllDigits(s[r.value.start..r.value.end])
    ensures r.Some? ==> r.value.end == |s| || !IsDigit(s[r.value.end])
  {
    var w := SpaceRun(s, 0);
    var signed := w < |s| && (s[w] == '+' || s[w] == '-');
    var d0 := if signed then w + 1 else w;
    var ds := DigitRun(s, d0);
    if ds == 0 then None
    else
      var run := s[d0..d0 + ds];
      assert forall k :: 0 <= k < |run| ==> run[k] == s[d0 + k];
      Some(Scan(signed && s[w] == '-', d0, d0 + ds))
  }

  /** The number the digit run of a scan denotes. */
  function Magnitude(s: string, sc: Scan): nat
    requires sc.start <= sc.end <= |s| && AllDigits(s[sc.start..sc.end])
  {
    DigitsValue(s[sc.start..sc.end])
  }

  /** Why a conversion throws. */
  datatype ConvError = InvalidArgument | OutOfRange

  /** `std::stol(s, &e, 10)`: the value and the count `e` of characters consumed. */
  function Stol(s: string): (r: Result<(int, nat), ConvError>)
    ensures r.Ok? ==> -(LONG_MAX + 1) <= r.value.0 <= LONG_MAX && 0 < r.value.1 <= |s|
    ensures r.Ok? ==> IsDigit(s[r.value.1 - 1]) && (r.value.1 == |s| || !IsDigit(s[r.value.1]))
    ensures r == Err(InvalidArgument) <==> ScanDecimal(s).None?
  {
    match ScanDecimal(s)
    case None => Err(InvalidArgument)
    case Some(sc) =>
      var m: int := Magnitude(s, sc);
      var v := if sc.negative then -m else m;
      assert s[sc.start..sc.end][sc.end - sc.start - 1] == s[sc.end - 1];
      if v < -(LONG_MAX + 1) || v > LONG_MAX then Err(OutOfRange) else Ok((v, sc.end))
  }

  /** `std::stoull(s)`: a minus sign negates modulo 2^64. */
  function Stoull(s: string): (r: Result<nat, ConvError>)
    ensures r.Ok? ==> r.value <= ULLONG_MAX
    ensures r == Err(InvalidArgument) <==> ScanDecimal(s).None?
  {
    match ScanDecimal(s)
    case None => Err(InvalidArgument)
    case Some(sc) =>
      var m := Magnitude(s, sc);
      if m > ULLONG_MAX then Err(OutOfRange)
      else if sc.negative then Ok((ULLONG_MAX + 1 - m) % (ULLONG_MAX + 1))
      else Ok(m)
  }

  // ---------------------------------------------------------------------
  // Reading back what `Show` writes
  // ---------------------------------------------------------------------

  /** The digits `Show` writes denote the number shown. */
  lemma {:induction false} ShowValue(n: nat)
    ensures DigitsValue(Show(n)) == n
    decreases n
  {
    var s := Show(n);
    if n >= 10 {
      ShowValue(n / 10);
      assert s[..|s| - 1] == Show(n / 10);
    }
  }

  /** A run of digits followed by a non-digit (or nothing) is read exactly to its end. */
  lemma {:induction false} DigitRunOf(s: string, i: nat, j: nat)
    requires i <= j <= |s| && (forall k :: i <= k < j ==> IsDigit(s[k])) && (j == |s| || !IsDigit(s[j]))
    ensures DigitRun(s, i) == j - i
    decreases j - i
  {
    if i < j {
      DigitRunOf(s, i + 1, j);
    }
  }

  /** A run of white space followed by another character (or nothing) is skipped exactly to its end. */
  lemma {:induction false} SpaceRunOf(s: string, i: nat, j: nat)
    requires i <= j <= |s| && (forall k :: i <= k < j ==> IsSpace(s[k])) && (j == |s| || !IsSpace(s[j]))
    ensures SpaceRun(s, i) == j - i
    decreases j - i
  {
    if i < j {
      SpaceRunOf(s, i + 1, j);
    }
  }

  /** A string that starts with a digit run, after a minus sign when `negative`, scans as that run. */
  lemma ScanAt(s: string, negative: bool, d1: nat)
    requires |s| > 0 && s[0] == (if negative then '-' else s[0]) && (negative || IsDigit(s[0]))
    requires (if negative then 1 else 0) < d1 <= |s|
    requires forall k :: (if negative then 1 else 0) <= k < d1 ==> IsDigit(s[k])
    requires d1 == |s| || !IsDigit(s[d1])
    ensures ScanDecimal(s) == Some(Scan(negative, if negative then 1 else 0, d1))
  {
    assert SpaceRun(s, 0) == 0;
    DigitRunOf(s, if negative then 1 else 0, d1);
  }

  /** A digit run followed by a non-digit (or nothing) scans as that run. */
  lemma ScanUnsignedDigits(digits: string, rest: string)
    requires |digits| > 0 && AllDigits(digits) && (|rest| == 0 || !IsDigit(rest[0]))
    ensures ScanDecimal(digits + rest) == Some(Scan(false, 0, |digits|))
    ensures (digits + rest)[0..|digits|] == digits
  {
    var t := digits + rest;
    assert t[0..|digits|] == digits;
    assert |digits| < |t| ==> t[|digits|] == rest[0];
    ScanAt(t, false, |digits|);
  }

  /** A minus sign, a digit run, then a non-digit (or nothing) scans as the run, negated. */
  lemma ScanNegativeDigits(digits: string, rest: string)
    requires |digits| > 0 && AllDigits(digits) && (|rest| == 0 || !IsDigit(rest[0]))
    ensures ScanDecimal(['-'] + (digits + rest)) == Some(Scan(true, 1, 1 + |digits|))
    ensures (['-'] + (digits + rest))[1..1 + |digits|] == digits
  {
    var t := digits + rest;
    var s := ['-'] + t;
    var d1 := |digits| + 1;
    assert s[1..d1] == digits;
    assert d1 < |s| ==> s[d1] == rest[0];
    ScanAt(s, true, d1);
  }

  /** A spelled-out number followed by a non-digit scans back to that number. */
  lemma ScanShow(i: int, rest: string)
    requires |rest| == 0 || !IsDigit(rest[0])
    ensures var s := ShowInt(i) + rest;
            var sc := Scan(i < 0, if i < 0 then 1 else 0, |ShowInt(i)|);
            ScanDecimal(s) == Some(sc) && Magnitude(s, sc) == if i < 0 then -i else i
  {
    if i < 0 {
      ScanShowNegative(i, rest);
    } else {
      ScanUnsignedDigits(Show(i), rest);
      ShowValue(i);
    }
  }

  lemma ScanShowNegative(i: int, rest: string)
    requires i < 0 && (|rest| == 0 || !IsDigit(rest[0]))
    ensures var s := ShowInt(i) + rest;
            ScanDecimal(s) == Some(Scan(true, 1, |ShowInt(i)|)) && Magnitude(s, Scan(true, 1, |ShowInt(i)|)) == -i
  {
    var m: nat := -i;
    var s := ShowInt(i) + rest;
    assert s == ['-'] + (Show(m) + rest);
    ScanNegativeDigits(Show(m), rest);
    ShowValue(m);
  }

  /** `stol` reads back every `long` value from its decimal spelling, consuming all of it. */
  lemma StolShow(i: int)
    requires -(LONG_MAX + 1) <= i <= LONG_MAX
    ensures Stol(ShowInt(i)) == Ok((i, |ShowInt(i)|))
  {
    ScanShow(i, "");
    assert ShowInt(i) + "" == ShowInt(i);
  }

  /** `stoull` reads back every unsigned 64-bit value from its decimal spelling. */
  lemma StoullShow(n: nat)
    requires n <= ULLONG_MAX
    ensures Stoull(Show(n)) == Ok(n)
  {
    ScanShow(n, "");
    assert ShowInt(n) + "" == Show(n);
  }

  /** `stoull` reads a spelled-out negative `-m` as `2^64 - m`. */
  lemma StoullShowNegative(i: int)
    requires -(ULLONG_MAX as int) <= i <= -1
    ensures Stoull(ShowInt(i)) == Ok(WORD + i)
  {
    ScanShow(i, "");
    assert ShowInt(i) + "" == ShowInt(i);
  }
}
