/** Decimal numerals as the runtime prints and reads them, and the 64-bit wrap-around of Kira's `Int`. */
module Decimal {

  const MIN64: int := -0x8000_0000_0000_0000
  const MAX64: int := 0x7FFF_FFFF_FFFF_FFFF

  predicate InRange64(x: int) {
    MIN64 <= x <= MAX64
  }

  /** What a 64-bit two's complement register holds after an arithmetic result `x`. */
  function Wrap64(x: int): (w: int)
    ensures InRange64(w)
    ensures InRange64(x) ==> w == x
  {
    (x - MIN64) % 0x1_0000_0000_0000_0000 + MIN64
  }

  /** Wrapping is determined by the residue: it absorbs any earlier wrap-around. */
  lemma Wrap64Step(a: int, d: int)
    ensures Wrap64(Wrap64(Wrap64(a) * 10) + d) == Wrap64(a * 10 + d)
    ensures Wrap64(0 - Wrap64(a)) == Wrap64(-a)
  {
    var m := 0x1_0000_0000_0000_0000;
    var qa := (a - MIN64) / m;
    assert Wrap64(a) == a - qa * m;
    var b := Wrap64(a) * 10;
    var qb := (b - MIN64) / m;
    assert Wrap64(b) == b - qb * m;
    Wrap64Shift(a * 10 + d, -10 * qa - qb);
    Wrap64Shift(-a, qa);
  }

  lemma Wrap64Shift(x: int, k: int)
    ensures Wrap64(x + k * 0x1_0000_0000_0000_0000) == Wrap64(x)
  {
  }

  predicate IsDigit(c: char) {
    '0' <= c <= '9'
  }

  predicate AllDigits(s: string) {
    forall i | 0 <= i < |s| :: IsDigit(s[i])
  }

  function Digit(d: nat): (c: char)
    requires d < 10
    ensures IsDigit(c) && DigitVal(c) == d
  {
    (48 + d) as char
  }

  function DigitVal(c: char): (d: nat)
    requires IsDigit(c)
    ensures d < 10
  {
    c as int - 48
  }

  /** The value denoted by a run of digits. */
  function NatVal(s: string): nat
    requires AllDigits(s)
  {
    if s == "" then 0 else NatVal(s[..|s| - 1]) * 10 + DigitVal(s[|s| - 1])
  }

  function NatText(n: nat): string {
    if n < 10 then [Digit(n)] else NatText(n / 10) + [Digit(n % 10)]
  }

  function IntText(n: int): string {
    if n < 0 then "-" + NatText(-n) else NatText(n)
  }

  /** An optional `-` followed by one or more digits. */
  predicate IsNumeral(s: string) {
    && s != ""
    && (if s[0] == '-' then |s| > 1 && AllDigits(s[1..]) else AllDigits(s))
  }

  function NumeralVal(s: string): int
    requires IsNumeral(s)
  {
    if s[0] == '-' then 0 - NatVal(s[1..]) else NatVal(s)
  }

  lemma {:induction false} NatTextReadsBack(n: nat)
    ensures NatText(n) != "" && AllDigits(NatText(n)) && NatVal(NatText(n)) == n
    ensures n > 0 ==> NatText(n)[0] != '0'
  {
    var t := NatText(n);
    if n < 10 {
      assert t[..0] == "";
      assert NatVal("") == 0;
    } else {
      NatTextReadsBack(n / 10);
      assert t[..|t| - 1] == NatText(n / 10);
    }
  }

  lemma IntTextReadsBack(n: int)
    ensures IsNumeral(IntText(n)) && NumeralVal(IntText(n)) == n
  {
    hide NatText, NatVal;
    if n < 0 {
      NatTextReadsBack(-n);
      assert IntText(n)[0] == '-' && IntText(n)[1..] == NatText(-n);
    } else {
      NatTextReadsBack(n);
      assert IsDigit(NatText(n)[0]);
    }
  }

  // ---------------------------------------------------------------------------
  // Which digit is worth what
  // ---------------------------------------------------------------------------

  /** `a` comes before `b` when the characters are compared from the left. */
  ghost predicate TextBefore(a: string, b: string) {
    exists i | 0 <= i < |a| && i < |b| :: a[..i] == b[..i] && a[i] < b[i]
  }

  lemma TextBeforeStep(a: string, x: char, b: string, y: char)
    requires |a| == |b|
    ensures TextBefore(a + [x], b + [y]) <==> TextBefore(a, b) || (a == b && x < y)
  {
    var s, t := a + [x], b + [y];
    assert forall i | 0 <= i <= |a| :: s[..i] == a[..i] && t[..i] == b[..i];
    assert s[..|a|] == a && t[..|a|] == b;
    if TextBefore(a, b) {
      var i :| 0 <= i < |a| && a[..i] == b[..i] && a[i] < b[i];
      assert s[..i] == t[..i] && s[i] < t[i];
    }
    if a == b && x < y {
      assert s[..|a|] == t[..|a|] && s[|a|] < t[|a|];
    }
    if TextBefore(s, t) {
      var i :| 0 <= i < |s| && s[..i] == t[..i] && s[i] < t[i];
      assert i < |a| ==> a[..i] == b[..i] && a[i] < b[i];
    }
  }

  /** Runs of digits of one length are ordered as numbers as their characters are: each digit has its value. */
  lemma {:induction false} OrderedAsText(a: string, b: string)
    requires |a| == |b| && AllDigits(a) && AllDigits(b)
    ensures NatVal(a) < NatVal(b) <==> TextBefore(a, b)
    ensures NatVal(a) == NatVal(b) <==> a == b
  {
    if a != "" {
      var last := |a| - 1;
      var a', b' := a[..last], b[..last];
      assert a == a' + [a[last]] && b == b' + [b[last]];
      OrderedAsText(a', b');
      TextBeforeStep(a', a[last], b', b[last]);
      DigitsOrdered(a[last], b[last]);
      hide NatVal, TextBefore, DigitVal;
      assert NatVal(a) == NatVal(a') * 10 + DigitVal(a[last]) by { NatValLast(a); }
      assert NatVal(b) == NatVal(b') * 10 + DigitVal(b[last]) by { NatValLast(b); }
    }
  }

  lemma NatValLast(s: string)
    requires s != "" && AllDigits(s)
    ensures NatVal(s) == NatVal(s[..|s| - 1]) * 10 + DigitVal(s[|s| - 1])
  {
  }

  lemma DigitsOrdered(x: char, y: char)
    requires IsDigit(x) && IsDigit(y)
    ensures DigitVal(x) < DigitVal(y) <==> x < y
    ensures DigitVal(x) == DigitVal(y) <==> x == y
  {
  }

  /** Digits without a leading zero are the printed form of their value. */
  lemma {:induction false} TextOfValue(s: string)
    requires s != "" && AllDigits(s) && (s[0] != '0' || |s| == 1)
    ensures NatText(NatVal(s)) == s
  {
    var front, last := s[..|s| - 1], s[|s| - 1];
    assert s == front + [last];
    if front == "" {
      assert NatVal(front) == 0;
    } else {
      TextOfValue(front);
      NatTextReadsBack(NatVal(front));
      assert NatVal(front) > 0 by { LeadingDigitCounts(front); }
    }
  }

  lemma {:induction false} LeadingDigitCounts(s: string)
    requires s != "" && AllDigits(s) && s[0] != '0'
    ensures NatVal(s) > 0
  {
    if |s| > 1 {
      LeadingDigitCounts(s[..|s| - 1]);
    } else {
      assert s[..0] == "";
    }
  }

  lemma DigitAppended(n: nat, text: string, d: nat, c: char)
    requires n > 0 && NatText(n) == text && d < 10 && c == Digit(d)
    ensures NatText(10 * n + d) == text + [c]
  {
  }

  lemma FirstDigitsPrinted()
    ensures NatText(12345) == "12345"
  {
    assert NatText(1) == "1";
    hide NatText;
    DigitAppended(1, "1", 2, '2');
    DigitAppended(12, "12", 3, '3');
    DigitAppended(123, "123", 4, '4');
    DigitAppended(1234, "1234", 5, '5');
  }

  lemma LastDigitsPrinted()
    ensures NatText(1234567890) == "1234567890"
  {
    FirstDigitsPrinted();
    hide NatText;
    DigitAppended(12345, "12345", 6, '6');
    DigitAppended(123456, "123456", 7, '7');
    DigitAppended(1234567, "1234567", 8, '8');
    DigitAppended(12345678, "12345678", 9, '9');
    DigitAppended(123456789, "123456789", 0, '0');
  }

  /** Every digit in its place, with either sign. */
  lemma AllDigitsPrinted()
    ensures IntText(1234567890) == "1234567890" && IntText(-1234567890) == "-" + "1234567890"
  {
    LastDigitsPrinted();
    hide NatText;
  }

  /** A numeral is never shorter than the canonical text of its value. */
  lemma {:induction false} NatTextShortest(s: string)
    requires s != "" && AllDigits(s)
    ensures |NatText(NatVal(s))| <= |s|
  {
    var p := s[..|s| - 1];
    if p == "" {
      assert NatVal(p) == 0;
    } else {
      NatTextShortest(p);
      assert NatVal(s) / 10 == NatVal(p);
    }
  }

  function Pow10(k: nat): (p: nat)
    ensures p > 0
  {
    if k == 0 then 1 else 10 * Pow10(k - 1)
  }

  lemma {:induction false} NatValBound(s: string)
    requires AllDigits(s)
    ensures NatVal(s) < Pow10(|s|)
  {
    if s != "" {
      NatValBound(s[..|s| - 1]);
    }
  }

  lemma {:induction false} NatTextLength(n: nat, k: nat)
    requires k > 0
    ensures |NatText(n)| <= k <==> n < Pow10(k)
  {
    if k == 1 {
      assert Pow10(1) == 10 * Pow10(0);
      if n >= 10 {
        NatTextReadsBack(n / 10);
      }
    } else if n < 10 {
      assert Pow10(k) >= 10 by { assert Pow10(k - 1) > 0; }
    } else {
      NatTextLength(n / 10, k - 1);
      assert n < 10 * Pow10(k - 1) <==> n / 10 < Pow10(k - 1);
    }
  }

  /** Every prefix of a run of digits denotes at most a tenth of the next one. */
  lemma NatValPrefixStep(s: string, i: nat)
    requires AllDigits(s) && i < |s|
    ensures NatVal(s[..i + 1]) == NatVal(s[..i]) * 10 + DigitVal(s[i])
  {
    assert s[..i + 1][..i] == s[..i];
  }

  lemma {:induction false} NatValPrefix(s: string, i: nat)
    requires AllDigits(s) && i <= |s|
    ensures NatVal(s[..i]) <= NatVal(s)
    decreases |s| - i
  {
    if i == |s| {
      assert s[..i] == s;
    } else {
      NatValPrefixStep(s, i);
      NatValPrefix(s, i + 1);
    }
  }

  lemma {:induction false} NatValConcat(a: string, b: string)
    requires AllDigits(a) && AllDigits(b)
    ensures AllDigits(a + b) && NatVal(a + b) == NatVal(a) * Pow10(|b|) + NatVal(b)
    decreases |b|
  {
    if b == "" {
      assert a + b == a;
      assert NatVal(b) == 0 && Pow10(|b|) == 1;
    } else {
      var b', d := b[..|b| - 1], DigitVal(b[|b| - 1]);
      NatValConcat(a, b');
      assert (a + b)[..|a + b| - 1] == a + b';
      assert NatVal(a + b) == NatVal(a + b') * 10 + d && NatVal(b) == NatVal(b') * 10 + d;
      assert Pow10(|b|) == 10 * Pow10(|b'|);
      hide NatVal, Pow10;
      ShiftedSum(NatVal(a), Pow10(|b'|), NatVal(b'), d);
    }
  }

  lemma ShiftedSum(x: int, p: int, y: int, d: int)
    ensures x * (10 * p) + (y * 10 + d) == (x * p + y) * 10 + d
  {
    assert x * (10 * p) == (x * p) * 10;
  }

  lemma {:induction false} Pow10Sum(j: nat, k: nat)
    ensures Pow10(j + k) == Pow10(j) * Pow10(k)
  {
    if j > 0 {
      Pow10Sum(j - 1, k);
      assert Pow10(j) == 10 * Pow10(j - 1) && Pow10(j + k) == 10 * Pow10(j - 1 + k);
      hide Pow10;
      assert 10 * Pow10(j - 1) * Pow10(k) == 10 * (Pow10(j - 1) * Pow10(k));
    }
  }
}
