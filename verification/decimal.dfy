/**
 * Decimal digit strings: `Number(digits)`, `n.toString()` and
 * `padStart(width, "0")` as used by the ADR numbering (src/index.js:74-76).
 */
module Decimal {

  predicate IsDigit(c: char) { '0' <= c <= '9' }

  predicate AllDigits(s: string)
  {
    forall i :: 0 <= i < |s| ==> IsDigit(s[i])
  }

  function DigitValue(c: char): nat
    requires IsDigit(c)
  {
    c as int - '0' as int
  }

  function DigitChar(d: nat): (c: char)
    requires d < 10
    ensures IsDigit(c) && DigitValue(c) == d
  {
    ('0' as int + d) as char
  }

  function Pow10(n: nat): (r: nat)
    ensures r >= 1
  {
    if n == 0 then 1 else 10 * Pow10(n - 1)
  }

  /** `Number(s)` for a string of decimal digits (the empty string reads as 0). */
  function DigitsValue(s: string): nat
    requires AllDigits(s)
  {
    if |s| == 0 then 0 else DigitValue(s[0]) * Pow10(|s| - 1) + DigitsValue(s[1..])
  }

  lemma {:induction false} DigitsValueBound(s: string)
    requires AllDigits(s)
    ensures DigitsValue(s) < Pow10(|s|)
    decreases |s|
  {
    if |s| > 0 {
      DigitsValueBound(s[1..]);
      var d, p := DigitValue(s[0]), Pow10(|s| - 1);
      assert DigitsValue(s) == d * p + DigitsValue(s[1..]);
      assert Pow10(|s|) == 10 * p;
      DigitTimesPower(d, p);
    }
  }

  lemma DigitTimesPower(d: nat, p: nat)
    requires d <= 9
    ensures d * p <= 9 * p
  {
  }

  /** Appending a digit multiplies the value by ten and adds the digit. */
  lemma {:induction false} DigitsValueSnoc(s: string, c: char)
    requires AllDigits(s) && IsDigit(c)
    ensures AllDigits(s + [c])
    ensures DigitsValue(s + [c]) == 10 * DigitsValue(s) + DigitValue(c)
    decreases |s|
  {
    var t := s + [c];
    if |s| == 0 {
      assert t == [c];
    } else {
      assert t[0] == s[0];
      assert t[1..] == s[1..] + [c];
      DigitsValueSnoc(s[1..], c);
      var d := DigitValue(s[0]);
      var p := Pow10(|s| - 1);
      assert Pow10(|t| - 1) == 10 * p;
      assert DigitsValue(t) == d * (10 * p) + DigitsValue(s[1..] + [c]);
      TimesTenRegroup(d, p, DigitsValue(s[1..]), DigitValue(c));
    }
  }

  /** Proof step of `DigitsValueSnoc`: the arithmetic regrouping. */
  lemma TimesTenRegroup(d: int, p: int, x: int, y: int)
    ensures d * (10 * p) + (10 * x + y) == 10 * (d * p + x) + y
  {
    assert d * (10 * p) == 10 * (d * p);
  }

  /** The value of a four-digit string, digit by digit. */
  lemma FourDigitsValue(s: string)
    requires |s| == 4 && AllDigits(s)
    ensures DigitsValue(s) == 1000 * DigitValue(s[0]) + 100 * DigitValue(s[1]) + 10 * DigitValue(s[2]) + DigitValue(s[3])
  {
    assert Pow10(3) == 1000 && Pow10(2) == 100 && Pow10(1) == 10 && Pow10(0) == 1;
    var t1, t2, t3 := s[1..], s[2..], s[3..];
    assert t1[1..] == t2 && t2[1..] == t3 && t3[1..] == [];
    assert DigitsValue(t3) == DigitValue(s[3]);
    assert DigitsValue(t2) == 10 * DigitValue(s[2]) + DigitValue(s[3]);
    assert DigitsValue(t1) == 100 * DigitValue(s[1]) + 10 * DigitValue(s[2]) + DigitValue(s[3]);
  }

  /** Leading zeros do not change the value. */
  lemma {:induction false} DigitsValueLeadingZero(s: string)
    requires AllDigits(s)
    ensures AllDigits("0" + s) && DigitsValue("0" + s) == DigitsValue(s)
  {
    assert ("0" + s)[1..] == s;
  }

  /**
   * `n.toString()` for a non-negative integer: the shortest decimal
   * numeral, which reads back as `n`.
   */
  function NatToDecimal(n: nat): (r: string)
    ensures |r| >= 1 && AllDigits(r)
    ensures DigitsValue(r) == n
    ensures |r| == 1 || r[0] != '0'
    decreases n
  {
    if n < 10 then [DigitChar(n)]
    else
      var prefix := NatToDecimal(n / 10);
      DigitsValueSnoc(prefix, DigitChar(n % 10));
      prefix + [DigitChar(n % 10)]
  }

  function Zeros(n: nat): (r: string)
    ensures |r| == n && AllDigits(r)
    ensures forall i :: 0 <= i < n ==> r[i] == '0'
  {
    seq(n, i => '0')
  }

  /** `s.padStart(width, "0")`. */
  function PadStartZero(s: string, width: nat): (r: string)
    ensures |r| == if |s| >= width then |s| else width
    ensures r[|r| - |s|..] == s
    ensures forall i :: 0 <= i < |r| - |s| ==> r[i] == '0'
  {
    if |s| >= width then s else Zeros(width - |s|) + s
  }

  /** Zero-padding a digit string keeps it a digit string with the same value. */
  lemma {:induction false} PadStartZeroValue(s: string, width: nat)
    requires AllDigits(s)
    ensures AllDigits(PadStartZero(s, width))
    ensures DigitsValue(PadStartZero(s, width)) == DigitsValue(s)
    decreases width
  {
    if |s| < width {
      var r := PadStartZero(s, width);
      assert r == "0" + PadStartZero(s, width - 1) by {
        if |s| < width - 1 {
          assert Zeros(width - |s|) == "0" + Zeros(width - 1 - |s|);
        } else {
          assert Zeros(width - |s|) == "0";
        }
      }
      PadStartZeroValue(s, width - 1);
      DigitsValueLeadingZero(PadStartZero(s, width - 1));
    }
  }

  lemma LeadingDigitDecides(da: nat, db: nat, p: nat, ra: nat, rb: nat)
    requires da < db && ra < p
    ensures da * p + ra < db * p + rb
  {
    var k := db - da - 1;
    assert db * p == da * p + p + k * p;
  }

  /**
   * Two digit strings of the same length compare lexicographically as their
   * values compare numerically.
   */
  lemma {:induction false} EqualWidthOrder(a: string, b: string, i: nat)
    requires AllDigits(a) && AllDigits(b) && |a| == |b|
    requires i < |a| && a[..i] == b[..i] && a[i] < b[i]
    ensures DigitsValue(a) < DigitsValue(b)
    decreases i
  {
    if i == 0 {
      DigitsValueBound(a[1..]);
      LeadingDigitDecides(DigitValue(a[0]), DigitValue(b[0]), Pow10(|a| - 1), DigitsValue(a[1..]), DigitsValue(b[1..]));
    } else {
      assert a[0] == a[..i][0] == b[..i][0] == b[0];
      assert a[1..][..i - 1] == a[1..i] == b[1..i] == b[1..][..i - 1];
      EqualWidthOrder(a[1..], b[1..], i - 1);
    }
  }
}
