/**
 Decimal text-to-integer conversion as C's `atoi` performs it: skip leading
 white space, accept one optional sign, then read the longest run of decimal
 digits. Text without such a run converts to 0 rather than being rejected.
 Values are unbounded integers; the C `int` overflow is not modelled.
 */
module Numeric {

  /** The characters C's `isspace` accepts in the "C" locale */
  predicate IsSpace(c: char) {
    c == ' ' || c == '\t' || c == '\n' || c == '\U{B}' || c == '\U{C}' || c == '\r'
  }

  predicate IsSign(c: char) {
    c == '+' || c == '-'
  }

  predicate IsDigit(c: char) {
    '0' <= c <= '9'
  }

  predicate AllDigits(s: string) {
    forall i :: 0 <= i < |s| ==> IsDigit(s[i])
  }

  function DigitValue(c: char): (v: nat)
    requires IsDigit(c)
    ensures v < 10
  {
    c as int - '0' as int
  }

  function DigitChar(v: nat): (c: char)
    requires v < 10
    ensures IsDigit(c) && DigitValue(c) == v
  {
    ('0' as int + v) as char
  }

  /** The text after its leading white space */
  function SkipSpace(s: string): (r: string)
    ensures |r| <= |s| && r == s[|s| - |r|..]
    ensures forall i :: 0 <= i < |s| - |r| ==> IsSpace(s[i])
    ensures |r| == 0 || !IsSpace(r[0])
  {
    if |s| > 0 && IsSpace(s[0]) then SkipSpace(s[1..]) else s
  }

  /** The text after at most one leading sign character */
  function DropSign(s: string): (r: string)
    ensures |s| > 0 && IsSign(s[0]) ==> r == s[1..]
    ensures |s| == 0 || !IsSign(s[0]) ==> r == s
  {
    if |s| > 0 && IsSign(s[0]) then s[1..] else s
  }

  /** The longest prefix of `s` made only of decimal digits */
  function DigitPrefix(s: string): (r: string)
    ensures |r| <= |s| && r == s[..|r|]
    ensures AllDigits(r)
    ensures |r| == |s| || !IsDigit(s[|r|])
  {
    if |s| > 0 && IsDigit(s[0]) then [s[0]] + DigitPrefix(s[1..]) else []
  }

  /** The value of a digit string read most significant digit first */
  function DecimalValue(ds: string): nat
    requires AllDigits(ds)
  {
    if |ds| == 0 then 0 else 10 * DecimalValue(ds[..|ds| - 1]) + DigitValue(ds[|ds| - 1])
  }

  /** `std::atoi` in the C locale: skip white space, take an optional sign,
      then read the longest run of digits */
  function Atoi(s: string): (n: int)
    ensures n != 0 ==> var u := DropSign(SkipSpace(s)); |u| > 0 && IsDigit(u[0])
    ensures n < 0 ==> var t := SkipSpace(s); |t| > 0 && t[0] == '-'
    ensures n > 0 ==> var t := SkipSpace(s); |t| > 0 && t[0] != '-'
  {
    var t := SkipSpace(s);
    var magnitude: int := DecimalValue(DigitPrefix(DropSign(t)));
    if |t| > 0 && t[0] == '-' then -magnitude else magnitude
  }

  /** The shortest decimal rendering of a natural number */
  function ShowNat(n: nat): (s: string)
    ensures |s| > 0 && AllDigits(s)
  {
    if n < 10 then [DigitChar(n)] else ShowNat(n / 10) + [DigitChar(n % 10)]
  }

  /** The decimal rendering of an integer, with a '-' when negative */
  function ShowInt(n: int): (s: string)
    ensures |s| > 0 && !IsSpace(s[0])
  {
    if n < 0 then "-" + ShowNat(-n) else ShowNat(n)
  }

  /** Reading back a rendered natural number gives that number */
  lemma {:induction false} DecimalValueOfShowNat(n: nat)
    ensures DecimalValue(ShowNat(n)) == n
  {
    var s := ShowNat(n);
    if n >= 10 {
      assert s[..|s| - 1] == ShowNat(n / 10);
      DecimalValueOfShowNat(n / 10);
    }
  }

  /** The maximal digit prefix of digits followed by a non-digit is those digits */
  lemma DigitPrefixOfDigitsThen(ds: string, rest: string)
    requires AllDigits(ds)
    requires |rest| == 0 || !IsDigit(rest[0])
    ensures DigitPrefix(ds + rest) == ds
  {
    var s := ds + rest;
    var p := DigitPrefix(s);
    assert forall i :: 0 <= i < |ds| ==> s[i] == ds[i];
    assert |s| == |ds| || !IsDigit(s[|ds|]);
    assert |p| == |ds|;
    assert p == s[..|ds|] == ds;
  }

  /** On a plain digit string, atoi yields the string's decimal value */
  lemma AtoiOfDigits(ds: string)
    requires AllDigits(ds)
    ensures Atoi(ds) == DecimalValue(ds)
  {
    AtoiStopsAtDigitEnd(ds, []);
    assert ds + [] == ds;
  }

  /** Conversion stops at the first character that is not a digit */
  lemma AtoiStopsAtDigitEnd(ds: string, rest: string)
    requires AllDigits(ds)
    requires |ds| > 0 || |rest| == 0
    requires |rest| == 0 || !IsDigit(rest[0])
    ensures Atoi(ds + rest) == DecimalValue(ds)
  {
    var s := ds + rest;
    if |s| > 0 {
      assert s[0] == ds[0];
      assert !IsSpace(s[0]) && !IsSign(s[0]);
    }
    assert SkipSpace(s) == s;
    assert DropSign(s) == s;
    DigitPrefixOfDigitsThen(ds, rest);
  }

  /** atoi inverts decimal rendering on every integer */
  lemma AtoiShowRoundTrip(n: int)
    ensures Atoi(ShowInt(n)) == n
  {
    var s := ShowInt(n);
    assert SkipSpace(s) == s;
    if n < 0 {
      var digits := ShowNat(-n);
      assert DropSign(s) == digits;
      DigitPrefixOfDigitsThen(digits, []);
      assert digits + [] == digits;
      DecimalValueOfShowNat(-n);
    } else {
      AtoiOfDigits(s);
      DecimalValueOfShowNat(n);
    }
  }

  /** Leading white space does not change the result */
  lemma AtoiSkipsLeadingSpace(c: char, s: string)
    requires IsSpace(c)
    ensures Atoi([c] + s) == Atoi(s)
  {
  }

  /** Text with no digit after the optional white space and sign silently converts to 0 */
  lemma AtoiWithoutDigitsIsZero(s: string)
    requires var u := DropSign(SkipSpace(s)); |u| == 0 || !IsDigit(u[0])
    ensures Atoi(s) == 0
  {
  }
}
