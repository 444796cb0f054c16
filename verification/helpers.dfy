/**
 * The command-line helpers of the sorting engine
 * (Assignment4/MergeSort_Code/general_helpers.hpp): `isNumber`, the length
 * parser `parseLen` with its K/M/G/B suffixes, and the check
 * `is_sorted_keys` that the drivers run on their output.
 */
module Helpers {
  import opened Outcomes
  import opened Numerals
  import opened Records
  import opened Order

  /**
   * `isNumber(s, n)` (general_helpers.hpp:13-26): the value `stol` reads,
   * provided it consumed the whole string; `None` when the conversion throws
   * or stops early.
   */
  function IsNumber(s: string): (r: Option<int>)
    ensures r.Some? ==> |s| > 0 && IsDigit(s[|s| - 1])
    ensures r.Some? ==> -(LONG_MAX + 1) <= r.value <= LONG_MAX
  {
    match Stol(s)
    case Err(_) => None
    case Ok((v, e)) => if e == |s| then Some(v) else None
  }

  /** Every `long` value is accepted in its decimal spelling. */
  lemma IsNumberShow(i: int)
    requires -(LONG_MAX + 1) <= i <= LONG_MAX
    ensures IsNumber(ShowInt(i)) == Some(i)
  {
    StolShow(i);
  }

  /**
   * A whole-string decimal number, laid out directly: white space `s[..w]`,
   * at most one sign `s[w..d]`, then nothing but digits `s[d..]`, at least
   * one; `v` is the digits' value, negated after a minus sign.
   */
  ghost predicate Spells(s: string, w: nat, d: nat, v: int) {
    w <= d < |s|
    && (forall k :: 0 <= k < w ==> IsSpace(s[k]))
    && (d == w || (d == w + 1 && (s[w] == '+' || s[w] == '-')))
    && AllDigits(s[d..])
    && v == if d == w + 1 && s[w] == '-' then -(DigitsValue(s[d..]) as int) else DigitsValue(s[d..])
  }

  /**
   * What `isNumber` accepts, over all inputs: exactly the strings laid out as
   * a whole decimal number whose value fits a `long`, and it yields that
   * value.  So `" +007"` is 7, and `"7 "` or `"0x7"` are refused.
   */
  lemma IsNumberMeaning(s: string, v: int)
    ensures IsNumber(s) == Some(v) <==>
            (exists w: nat, d: nat :: Spells(s, w, d, v)) && -(LONG_MAX + 1) <= v <= LONG_MAX
  {
    if IsNumber(s) == Some(v) {
      IsNumberSpells(s);
    }
    if exists w: nat, d: nat :: Spells(s, w, d, v) {
      var w: nat, d: nat :| Spells(s, w, d, v);
      if -(LONG_MAX + 1) <= v <= LONG_MAX {
        SpellsIsNumber(s, w, d, v);
      }
    }
  }

  /** An accepted string is laid out as a whole number of the value returned. */
  lemma IsNumberSpells(s: string)
    requires IsNumber(s).Some?
    ensures Spells(s, SpaceRun(s, 0), ScanDecimal(s).value.start, IsNumber(s).value)
  {
    var sc := ScanDecimal(s).value;
    assert sc.end == |s|;
    assert s[sc.start..] == s[sc.start..sc.end];
  }

  /** A string laid out as a whole number of a `long` value is accepted with that value. */
  lemma SpellsIsNumber(s: string, w: nat, d: nat, v: int)
    requires Spells(s, w, d, v) && -(LONG_MAX + 1) <= v <= LONG_MAX
    ensures IsNumber(s) == Some(v)
  {
    SpellsScan(s, w, d, v);
    assert s[d..] == s[d..|s|];
  }

  /** The scan of such a string reads its sign and all of its digits. */
  lemma SpellsScan(s: string, w: nat, d: nat, v: int)
    requires Spells(s, w, d, v)
    ensures ScanDecimal(s) == Some(Scan(d == w + 1 && s[w] == '-', d, |s|))
  {
    assert forall k :: d <= k < |s| ==> s[d..][k - d] == s[k];
    assert IsDigit(s[d..][0]);
    SpaceRunOf(s, 0, w);
    DigitRunOf(s, d, |s|);
  }

  /** A plain run of digits, as `is_number` of the Collatz driver accepts, is read as its value. */
  lemma IsNumberDigits(s: string)
    requires |s| > 0 && AllDigits(s) && DigitsValue(s) <= LONG_MAX
    ensures IsNumber(s) == Some(DigitsValue(s) as int)
  {
    assert s[0..] == s;
    SpellsIsNumber(s, 0, 0, DigitsValue(s));
  }

  /** Leading white space and a plus sign are read past, leading zeros add nothing. */
  lemma IsNumberPadded()
    ensures IsNumber(" +007") == Some(7)
  {
    var s := " +007";
    assert s[2..] == "007";
    assert DigitsValue("007") == 7 by {
      assert "007"[..2] == "00" && "00"[..1] == "0" && "0"[..0] == "";
    }
    SpellsIsNumber(s, 1, 2, 7);
  }

  /** Anything that does not end in a digit is rejected: trailing text is not part of a number. */
  lemma IsNumberTrailing(s: string, c: char)
    requires !IsDigit(c)
    ensures IsNumber(s + [c]) == None
  {
  }

  /** The multiplier a last character stands for; 1 when it is no suffix. */
  function Multiplier(c: char): nat {
    if c == 'K' || c == 'k' then 1000
    else if c == 'M' || c == 'm' then 1000000
    else if c == 'G' || c == 'g' || c == 'B' || c == 'b' then 1000000000
    else 1
  }

  /**
   * `parseLen(in, N)` (general_helpers.hpp:28-60): with more than one
   * character and a recognised suffix, the prefix must be a number and is
   * scaled; otherwise the whole string must be a number.
   */
  function ParseLen(s: string): (r: Option<int>)
    ensures r.Some? ==> |s| > 0 && (IsDigit(s[|s| - 1]) || Multiplier(s[|s| - 1]) != 1)
  {
    if |s| > 1 && Multiplier(s[|s| - 1]) != 1 then
      match IsNumber(s[..|s| - 1])
      case None => None
      case Some(b) => Some(b * Multiplier(s[|s| - 1]))
    else IsNumber(s)
  }

  /** A plain decimal length parses to itself. */
  lemma ParseLenShow(i: int)
    requires -(LONG_MAX + 1) <= i <= LONG_MAX
    ensures ParseLen(ShowInt(i)) == Some(i)
  {
    var s := ShowInt(i);
    assert Multiplier(s[|s| - 1]) == 1;
    IsNumberShow(i);
  }

  /** A decimal length with a suffix parses to the length times the suffix's multiplier. */
  lemma ParseLenSuffixed(i: int, c: char)
    requires -(LONG_MAX + 1) <= i <= LONG_MAX && Multiplier(c) != 1
    ensures ParseLen(ShowInt(i) + [c]) == Some(i * Multiplier(c))
  {
    var s := ShowInt(i) + [c];
    assert s[..|s| - 1] == ShowInt(i);
    IsNumberShow(i);
  }

  /** A lone suffix letter is not a length: with one character the whole string must be a number. */
  lemma ParseLenLoneSuffix(c: char)
    requires Multiplier(c) != 1
    ensures ParseLen([c]) == None
  {
  }

  /**
   * `is_sorted_keys(v)` (general_helpers.hpp:72-78): checks each adjacent
   * pair and answers whether the whole vector is sorted by key.
   */
  method IsSortedKeys(v: seq<Record>) returns (b: bool)
    ensures b <==> Sorted(v)
  {
    if |v| == 0 {
      return true;
    }
    var i := 1;
    while i < |v|
      invariant 1 <= i <= |v|
      invariant Sorted(v[..i])
    {
      if v[i - 1].key > v[i].key {
        return false;
      }
      assert v[..i + 1] == v[..i] + [v[i]];
      i := i + 1;
    }
    assert v[..i] == v;
    return true;
  }
}
