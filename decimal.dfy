/**
 * Decimal text of integers: str(n), used by format_result, and a simplified
 * int(text), used by the interactive loop to read a line.
 */
module Decimal {

  datatype Option<T> = None | Some(value: T)

  predicate IsDigit(c: char) {
    '0' <= c <= '9'
  }

  /** A non-empty run of ASCII decimal digits. */
  predicate AllDigits(s: string) {
    |s| > 0 && forall i :: 0 <= i < |s| ==> IsDigit(s[i])
  }

  function DigitChar(d: nat): (c: char)
    requires d < 10
    ensures IsDigit(c) && c as int - '0' as int == d
  {
    ('0' as int + d) as char
  }

  function DigitValue(c: char): (d: nat)
    requires IsDigit(c)
    ensures d < 10 && DigitChar(d) == c
  {
    c as int - '0' as int
  }

  /** The value of a run of decimal digits, most significant first. */
  function DigitsValue(s: string): nat
    requires forall i :: 0 <= i < |s| ==> IsDigit(s[i])
  {
    if s == [] then 0 else 10 * DigitsValue(s[..|s| - 1]) + DigitValue(s[|s| - 1])
  }

  /** str(n) for n >= 0: digits without leading zeros. */
  function NatToString(n: nat): (s: string)
    ensures AllDigits(s)
    ensures |s| > 1 ==> s[0] != '0'
  {
    if n < 10 then [DigitChar(n)] else NatToString(n / 10) + [DigitChar(n % 10)]
  }

  /** str(n): a leading '-' for negative numbers, then the digits of |n|. */
  function IntToString(n: int): (r: string)
    ensures |r| > 0 && (r[0] == '-' <==> n < 0)
  {
    if n < 0 then "-" + NatToString(-n) else NatToString(n)
  }

  /**
   * The most digits int() converts: CPython's default for
   * sys.get_int_max_str_digits(), since 3.11 and the 3.10.7, 3.9.14, 3.8.14
   * and 3.7.14 security releases.  A longer digit run, leading zeros
   * included, raises ValueError.
   */
  const MaxStrDigits := 4300

  /**
   * int(text) for text that was already stripped: an optional '+' or '-'
   * followed by one to MaxStrDigits ASCII decimal digits.  Anything else is
   * None, which stands for the ValueError of the source.
   */
  function ParseInt(s: string): (r: Option<int>)
    ensures r.Some? <==>
      (AllDigits(s) && |s| <= MaxStrDigits)
      || (|s| > 1 && (s[0] == '-' || s[0] == '+') && AllDigits(s[1..]) && |s| - 1 <= MaxStrDigits)
    ensures r.Some? && r.value < 0 ==> s[0] == '-'
    ensures r.Some? && s[0] != '-' ==> r.value >= 0
  {
    if |s| > 0 && (s[0] == '-' || s[0] == '+') then
      if AllDigits(s[1..]) && |s| - 1 <= MaxStrDigits then
        var v: int := DigitsValue(s[1..]);
        Some(if s[0] == '-' then -v else v)
      else None
    else if AllDigits(s) && |s| <= MaxStrDigits then Some(DigitsValue(s))
    else None
  }

  /** Drops leading zeros, keeping at least one digit. */
  function DropZeros(d: string): string {
    if |d| > 1 && d[0] == '0' then DropZeros(d[1..]) else d
  }

  /**
   * The text str() writes for the value of an accepted text s: a '+' is
   * dropped, leading zeros are dropped, and a negative zero is "0".
   */
  function Canonical(s: string): string
    requires |s| > 0
  {
    if s[0] == '+' then DropZeros(s[1..])
    else if s[0] == '-' then
      var z := DropZeros(s[1..]);
      if z == "0" then z else "-" + z
    else DropZeros(s)
  }

  /** Reading back the digits of n gives n. */
  lemma {:induction false} DigitsOfNat(n: nat)
    ensures DigitsValue(NatToString(n)) == n
  {
    var s := NatToString(n);
    if n >= 10 {
      DigitsOfNat(n / 10);
      assert s[..|s| - 1] == NatToString(n / 10);
    }
  }

  /**
   * Round trip: int(str(n)) == n for every integer n whose digits fit the
   * limit; a longer str(n) is refused by int().
   */
  lemma ParseIntString(n: int)
    ensures |NatToString(if n < 0 then -n else n)| <= MaxStrDigits ==> ParseInt(IntToString(n)) == Some(n)
    ensures |NatToString(if n < 0 then -n else n)| > MaxStrDigits ==> ParseInt(IntToString(n)) == None
  {
    var s := IntToString(n);
    if n < 0 {
      var t := NatToString(-n);
      assert s == "-" + t && s[0] == '-' && s[1..] == t;
      DigitsOfNat(-n);
      var v: int := DigitsValue(t);
      if |t| <= MaxStrDigits {
        assert ParseInt(s) == Some(-v);
      }
    } else {
      DigitsOfNat(n);
      assert s[0] != '-' && s[0] != '+';
    }
  }

  /** A leading zero does not change the value of a digit run. */
  lemma {:induction false} LeadingZero(t: string)
    requires forall i :: 0 <= i < |t| ==> IsDigit(t[i])
    ensures DigitsValue("0" + t) == DigitsValue(t)
  {
    if t != [] {
      var p := t[..|t| - 1];
      LeadingZero(p);
      assert ("0" + t)[..|t|] == "0" + p;
    }
  }

  /** DropZeros keeps the value and leaves at most one leading zero, the digit "0" itself. */
  lemma {:induction false} DropZerosSpec(d: string)
    requires AllDigits(d)
    ensures AllDigits(DropZeros(d)) && |DropZeros(d)| <= |d|
    ensures |DropZeros(d)| > 1 ==> DropZeros(d)[0] != '0'
    ensures DigitsValue(DropZeros(d)) == DigitsValue(d)
  {
    if |d| > 1 && d[0] == '0' {
      DropZerosSpec(d[1..]);
      LeadingZero(d[1..]);
      assert d == "0" + d[1..];
    }
  }

  /** A digit run that starts with a non-zero digit has a positive value. */
  lemma {:induction false} NonZeroLead(t: string)
    requires AllDigits(t) && t[0] != '0'
    ensures DigitsValue(t) >= 1
  {
    if |t| > 1 {
      var p := t[..|t| - 1];
      assert p[0] == t[0];
      NonZeroLead(p);
    }
  }

  /** Writing back the value of a digit run without leading zeros gives the run itself. */
  lemma {:induction false} NatToStringOfDigits(t: string)
    requires AllDigits(t) && (|t| > 1 ==> t[0] != '0')
    ensures NatToString(DigitsValue(t)) == t
  {
    var p := t[..|t| - 1];
    var d := DigitValue(t[|t| - 1]);
    if |t| == 1 {
      assert DigitsValue(t) == d;
      assert t == [t[0]];
    } else {
      assert p[0] == t[0];
      NatToStringOfDigits(p);
      NonZeroLead(p);
      var n := DigitsValue(t);
      assert n == 10 * DigitsValue(p) + d;
      assert n / 10 == DigitsValue(p) && n % 10 == d;
      assert t == p + [t[|t| - 1]];
    }
  }

  /**
   * The other round trip: str(int(s)) is the canonical form of s.  The value
   * of an accepted text also has at most MaxStrDigits digits, so str() of it
   * stays within the limit.
   */
  lemma ParseIntCanonical(s: string)
    requires ParseInt(s).Some?
    ensures IntToString(ParseInt(s).value) == Canonical(s)
    ensures |NatToString(if ParseInt(s).value < 0 then -ParseInt(s).value else ParseInt(s).value)| <= MaxStrDigits
  {
    var d := if s[0] == '-' || s[0] == '+' then s[1..] else s;
    assert AllDigits(d) && |d| <= MaxStrDigits;
    DropZerosSpec(d);
    var z := DropZeros(d);
    NatToStringOfDigits(z);
    var v: int := DigitsValue(d);
    assert NatToString(v) == z;
    if s[0] == '-' {
      assert ParseInt(s).value == -v;
      if v == 0 {
        assert z == "0";
      } else {
        DigitsOfNat(v);
        assert z != "0";
      }
    }
  }

  /** str(n) is made of digits and an optional leading minus sign: never a space. */
  lemma IntToStringChars(n: int)
    ensures |IntToString(n)| > 0
    ensures forall i :: 0 <= i < |IntToString(n)| ==> IntToString(n)[i] == '-' || IsDigit(IntToString(n)[i])
  {
    var t := NatToString(if n < 0 then -n else n);
    if n < 0 {
      assert forall i :: 1 <= i < |IntToString(n)| ==> IntToString(n)[i] == t[i - 1];
    }
  }

  /** Distinct integers have distinct decimal forms. */
  lemma IntToStringInjective(m: int, n: int)
    requires IntToString(m) == IntToString(n)
    ensures m == n
  {
    var s := IntToString(m);
    if m < 0 {
      assert s[1..] == NatToString(-m) && s[1..] == NatToString(-n);
      DigitsOfNat(-m);
      DigitsOfNat(-n);
    } else {
      DigitsOfNat(m);
      DigitsOfNat(n);
    }
  }

  /** str(n) of the numbers the tests use. */
  lemma IntToStringExamples()
    ensures IntToString(7) == "7"
    ensures IntToString(10) == "10"
    ensures IntToString(-5) == "-5"
  {
    assert NatToString(1) == "1" && DigitChar(0) == '0';
  }

  /** Leading zeros and a '+' sign are accepted and do not change the value. */
  lemma ParseIntExamples()
    ensures ParseInt("7") == Some(7)
    ensures ParseInt("-5") == Some(-5)
    ensures ParseInt("+5") == Some(5)
    ensures ParseInt("007") == Some(7)
    ensures ParseInt("abc") == None
    ensures ParseInt("") == None
    ensures ParseInt("-") == None
    ensures ParseInt("1 2") == None
  {
    assert !AllDigits("abc") by { assert !IsDigit("abc"[0]); }
    assert !AllDigits("1 2") by { assert !IsDigit("1 2"[1]); }
    assert "007"[..2] == "00" && "00"[..1] == "0";
    assert "+5"[1..] == "5" && "-5"[1..] == "5";
  }

  /** The canonical forms of texts int() reads with a sign or leading zeros. */
  lemma CanonicalExamples()
    ensures ParseInt("-0") == Some(0) && Canonical("-0") == "0"
    ensures Canonical("+007") == "7"
    ensures Canonical("-05") == "-5"
  {
    assert "-0"[1..] == "0";
    assert "+007"[1..] == "007" && "007"[1..] == "07" && "07"[1..] == "7";
    assert "-05"[1..] == "05" && "05"[1..] == "5";
  }
}
