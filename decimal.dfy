/** Decimal rendering and parsing of integers, as JavaScript does for the
    integral numbers the plugin writes into class names and data attributes
    (template interpolation `${n}`) and reads back (unary `+s`). */
module Decimal {

  function DigitChar(d: nat): (c: char)
    requires d < 10
    ensures '0' <= c <= '9'
    ensures DigitValue(c) == d
  {
    "0123456789"[d]
  }

  /** The value of a digit character. */
  function DigitValue(c: char): int
  {
    c as int - '0' as int
  }

  predicate IsDigits(s: string) {
    forall i :: 0 <= i < |s| ==> '0' <= s[i] <= '9'
  }

  /** Decimal digits of a natural number, most significant first. */
  function ShowNat(n: nat): (s: string)
    ensures |s| >= 1 && IsDigits(s)
  {
    if n < 10 then [DigitChar(n)] else ShowNat(n / 10) + [DigitChar(n % 10)]
  }

  /** `${n}` for an integer n. */
  function Show(n: int): (s: string)
    ensures |s| >= 1
    ensures (s[0] == '-') <==> n < 0
    ensures IsDigits(if s[0] == '-' then s[1..] else s)
  {
    if n < 0 then "-" + ShowNat(-n) else ShowNat(n)
  }

  function Pow10(k: nat): (p: nat)
    ensures p >= 1
  {
    if k == 0 then 1 else 10 * Pow10(k - 1)
  }

  /** Value of a string of decimal digits (Parse only applies it to digits). */
  function ParseNat(s: string): int
  {
    if s == [] then 0 else ParseNat(s[..|s| - 1]) * 10 + DigitValue(s[|s| - 1])
  }

  /** An optional minus sign, then decimal digits. */
  predicate IsSignedDigits(s: string) {
    |s| >= 1 && IsDigits(if s[0] == '-' then s[1..] else s)
  }

  /** Unary `+s` on an optionally signed string of decimal digits. */
  function Parse(s: string): int
    requires IsSignedDigits(s)
  {
    if s[0] == '-' then -ParseNat(s[1..]) else ParseNat(s)
  }

  lemma {:induction false} ParseShowNat(n: nat)
    ensures ParseNat(ShowNat(n)) == n
  {
    if n >= 10 {
      var s := ShowNat(n);
      assert s[..|s| - 1] == ShowNat(n / 10);
      ParseShowNat(n / 10);
    }
  }

  /** Reading back what was rendered gives the same integer. */
  lemma {:induction false} ParseShow(n: int)
    ensures Parse(Show(n)) == n
  {
    if n < 0 {
      var m: nat := -n;
      assert Show(n) == "-" + ShowNat(m);
      ParseSigned(ShowNat(m));
      ParseShowNat(m);
    } else {
      assert Show(n) == ShowNat(n);
      ParseUnsigned(ShowNat(n));
      ParseShowNat(n);
    }
  }

  /** `+` on a minus sign followed by digits. */
  lemma {:induction false} ParseSigned(t: string)
    requires IsDigits(t)
    ensures Parse("-" + t) == -ParseNat(t)
  {
    var s := "-" + t;
    assert s[0] == '-';
    assert s[1..] == t;
  }

  /** `+` on a non-empty string of digits. */
  lemma {:induction false} ParseUnsigned(t: string)
    requires |t| >= 1 && IsDigits(t)
    ensures Parse(t) == ParseNat(t)
  {
    assert '0' <= t[0] <= '9';
  }

  /** Rendering is injective: different integers give different strings. */
  lemma {:induction false} ShowInjective(m: int, n: int)
    ensures Show(m) == Show(n) <==> m == n
  {
    if Show(m) == Show(n) {
      ParseShow(m);
      ParseShow(n);
    }
  }

  /** Parsing a concatenation of digit strings shifts the left part. */
  lemma {:induction false} ParseNatAppend(s: string, t: string)
    ensures ParseNat(s + t) == ParseNat(s) * Pow10(|t|) + ParseNat(t)
  {
    var u := s + t;
    if t == [] {
      assert u == s;
    } else {
      var t' := t[..|t| - 1];
      var d := DigitValue(t[|t| - 1]);
      assert u[..|u| - 1] == s + t';
      assert u[|u| - 1] == t[|t| - 1];
      ParseNatAppend(s, t');
      var a, p, b := ParseNat(s), Pow10(|t'|), ParseNat(t');
      assert ParseNat(u) == (a * p + b) * 10 + d;
      ShiftStep(a, p, b, d);
    }
  }

  lemma DigitsAppend(s: string, t: string)
    requires IsDigits(s) && IsDigits(t)
    ensures IsDigits(s + t)
  {
    var u := s + t;
    forall i | 0 <= i < |u| ensures '0' <= u[i] <= '9' {
      if i < |s| {
        assert u[i] == s[i];
      } else {
        assert u[i] == t[i - |s|];
      }
    }
  }

  /** The arithmetic step of ParseNatAppend, kept apart from the sequences. */
  lemma ShiftStep(a: int, p: int, b: int, d: int)
    ensures (a * p + b) * 10 + d == a * (10 * p) + (b * 10 + d)
  {
  }

  /** `+(String(b) + String(len))`: the digits of len are appended to b, so
      the value is b shifted left by as many decimal places as len has
      digits, plus or minus len. */
  lemma {:induction false} ParseConcat(b: int, len: nat)
    ensures |Show(b) + Show(len)| >= 1
    ensures IsDigits(if (Show(b) + Show(len))[0] == '-' then (Show(b) + Show(len))[1..] else Show(b) + Show(len))
    ensures Parse(Show(b) + Show(len))
         == (if b >= 0 then b * Pow10(|Show(len)|) + len else b * Pow10(|Show(len)|) - len)
  {
    assert Show(len) == ShowNat(len);
    if b < 0 {
      var m: nat := -b;
      assert Show(b) + Show(len) == "-" + (ShowNat(m) + ShowNat(len));
      ParseConcatNegative(m, len);
    } else {
      assert Show(b) == ShowNat(b);
      ParseConcatNonNegative(b, len);
    }
  }

  lemma {:induction false} ParseConcatNonNegative(b: nat, len: nat)
    ensures IsDigits(ShowNat(b) + ShowNat(len))
    ensures (ShowNat(b) + ShowNat(len))[0] != '-'
    ensures Parse(ShowNat(b) + ShowNat(len)) == b * Pow10(|ShowNat(len)|) + len
  {
    var u := ShowNat(b) + ShowNat(len);
    DigitsAppend(ShowNat(b), ShowNat(len));
    ParseNatAppend(ShowNat(b), ShowNat(len));
    ParseShowNat(b);
    ParseShowNat(len);
    ParseUnsigned(u);
  }

  lemma {:induction false} ParseConcatNegative(m: nat, len: nat)
    requires m > 0
    ensures IsDigits(("-" + (ShowNat(m) + ShowNat(len)))[1..])
    ensures Parse("-" + (ShowNat(m) + ShowNat(len))) == (-(m as int)) * Pow10(|ShowNat(len)|) - len
  {
    var t := ShowNat(m) + ShowNat(len);
    assert ("-" + t)[1..] == t;
    DigitsAppend(ShowNat(m), ShowNat(len));
    ParseNatAppend(ShowNat(m), ShowNat(len));
    ParseShowNat(m);
    ParseShowNat(len);
    ParseSigned(t);
    NegateShift(m, Pow10(|ShowNat(len)|), len);
  }

  lemma NegateShift(m: nat, p: nat, len: nat)
    ensures -((m * p + len) as int) == (-(m as int)) * p - len
  {
  }
}
