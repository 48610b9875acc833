/**
 `String(Float)` in the native runtime: the `%g` text of a double, expanded from scientific to plain
 notation.  The `%g` text itself is an input; what the C standard says of it is a hypothesis.
 */
module FloatText {
  import opened Decimal
  import opened KiraStrings

  // ---------------------------------------------------------------------------
  // Scientific text
  // ---------------------------------------------------------------------------

  predicate IsExponent(s: string) {
    s != "" && (if s[0] == '+' then |s| > 1 && AllDigits(s[1..]) else IsNumeral(s))
  }

  function ExponentVal(s: string): int
    requires IsExponent(s)
  {
    if s[0] == '+' then NatVal(s[1..]) else NumeralVal(s)
  }

  /** Digits with at most one point among them, and at least one digit. */
  predicate IsMantissa(m: string) {
    var at := Find(m, '.');
    if at == -1 then m != "" && AllDigits(m)
    else |m| > 1 && AllDigits(m[..at]) && AllDigits(m[at + 1..])
  }

  /** The digits of a mantissa without its point. */
  function Digits(m: string): string {
    var at := Find(m, '.');
    if at == -1 then m else m[..at] + m[at + 1..]
  }

  /** How many digits stand before the point. */
  function Point(m: string): nat {
    var at := Find(m, '.');
    if at == -1 then |m| else at
  }

  datatype Scientific = Scientific(neg: bool, mantissa: string, exponent: string) {

    predicate Valid() {
      IsMantissa(mantissa) && IsExponent(exponent)
    }

    function Text(): string {
      (if neg then "-" else "") + (mantissa + ['e'] + exponent)
    }

    /** Where the decimal point falls within the digits once the exponent is applied. */
    function DecimalPoint(): int
      requires Valid()
    {
      Point(mantissa) + ExponentVal(exponent)
    }
  }

  // ---------------------------------------------------------------------------
  // The expansion
  // ---------------------------------------------------------------------------

  function Zeros(k: nat): (z: string)
    ensures |z| == k && AllDigits(z)
  {
    seq(k, _ => '0')
  }

  /** The plain text: the digits with the point after the first `dp` of them. */
  function Expanded(neg: bool, digits: string, dp: int): string {
    (if neg then "-" else "") +
    if dp <= 0 then "0." + Zeros(-dp) + digits
    else if dp >= |digits| then digits + Zeros(dp - |digits|)
    else digits[..dp] + ['.'] + digits[dp..]
  }

  const DIGIT_BUFFER := 32
  const PLAIN_BUFFER := 1100

  /** Copies `s` into the buffer from position `pn` on: the `plain[pn++] = ...` loops. */
  method Put(buffer: array<char>, pn: nat, s: string) returns (end: nat)
    requires pn + |s| <= buffer.Length
    modifies buffer
    ensures end == pn + |s| && buffer[..end] == old(buffer[..pn]) + s
  {
    end := pn;
    for i := 0 to |s|
      invariant end == pn + i
      invariant buffer[..end] == old(buffer[..pn]) + s[..i]
    {
      buffer[end] := s[i];
      end := end + 1;
      assert buffer[..end] == old(buffer[..pn]) + s[..i] + [s[i]];
      assert s[..i + 1] == s[..i] + [s[i]];
    }
    assert s[..|s|] == s;
  }

  /** The digits within the first `p` bytes of a mantissa whose point is at `dot`. */
  function DigitsBefore(m: string, dot: int, p: nat): string
    requires p <= |m|
  {
    if 0 <= dot < p then m[..dot] + m[dot + 1..p] else m[..p]
  }

  lemma DigitsBeforeStep(m: string, dot: int, p: nat)
    requires p < |m|
    ensures DigitsBefore(m, dot, p + 1) == DigitsBefore(m, dot, p) + if p == dot then [] else [m[p]]
    ensures |DigitsBefore(m, dot, p)| <= p
    ensures p == dot ==> |DigitsBefore(m, dot, p)| == dot
    ensures DigitsBefore(m, dot, 0) == [] && (dot == Find(m, '.') ==> DigitsBefore(m, dot, |m|) == Digits(m))
  {
    assert m[..|m|] == m;
  }

  /** Separates the digits of a mantissa from its point. */
  method SplitMantissa(m: string) returns (digits: string, point: nat)
    requires IsMantissa(m) && |m| <= DIGIT_BUFFER
    ensures digits == Digits(m) && point == Point(m)
  {
    var buffer := new char[DIGIT_BUFFER];
    var nd := 0;
    var at := -1;
    ghost var dot := Find(m, '.');
    MantissaBytes(m);
    DigitsBeforeStep(m, dot, 0);
    hide DigitsBefore, Digits, IsMantissa, Find;
    for p := 0 to |m|
      invariant 0 <= nd <= p
      invariant at == if 0 <= dot < p then dot else -1
      invariant buffer[..nd] == DigitsBefore(m, dot, p)
    {
      DigitsBeforeStep(m, dot, p);
      if m[p] == '.' {
        assert dot == p;
        at := nd;
      } else {
        buffer[nd] := m[p];
        nd := nd + 1;
        assert buffer[..nd] == buffer[..nd - 1] + [m[p]];
      }
    }
    if at < 0 {
      at := nd;
    }
    return buffer[..nd], at;
  }

  /**
   The text printed for a double whose `%g` text is `g`: in plain notation, and of the same number.  A text
   without an exponent is printed as it is.
   */
  method FromGeneral(g: string, ghost sci: Scientific) returns (out: string)
    requires 'e' in g ==> sci.Valid() && g == sci.Text() && |sci.mantissa| <= DIGIT_BUFFER
    requires 'e' in g ==> |Expanded(sci.neg, Digits(sci.mantissa), sci.DecimalPoint())| <= PLAIN_BUFFER
    ensures 'e' !in g ==> out == g
    ensures 'e' in g ==> out == Expanded(sci.neg, Digits(sci.mantissa), sci.DecimalPoint())
    ensures 'e' in g ==> IsPlain(out) && SameNumber(PlainVal(out), ScientificVal(sci))
  {
    hide Expanded, SameNumber, IsPlain, PlainVal, ScientificVal, IsMantissa, NatVal, Digits, Point;
    var e := IndexOfByte(g, 'e');
    FindFirst(g, 'e');
    if e == -1 {
      return g;
    }
    ScientificParts(sci, e);
    var exponent := g[e + 1..];
    var exp10 := ExponentVal(exponent);
    var neg := g[0] == '-';
    var m := g[if neg then 1 else 0..e];
    var digits, point := SplitMantissa(m);
    out := WritePlain(neg, digits, point + exp10);
    ExpansionPreservesNumber(sci);
  }

  /** Fills the plain buffer: the three layouts. */
  method WritePlain(neg: bool, digits: string, dp: int) returns (out: string)
    requires |Expanded(neg, digits, dp)| <= PLAIN_BUFFER
    ensures out == Expanded(neg, digits, dp)
  {
    var nd := |digits|;
    var plain := new char[PLAIN_BUFFER];
    var pn := 0;
    if neg {
      pn := Put(plain, pn, "-");
    }
    ghost var sign := plain[..pn];
    if dp <= 0 {
      pn := Put(plain, pn, "0.");
      pn := Put(plain, pn, Zeros(-dp));
      pn := Put(plain, pn, digits);
      Joined(sign, "0.", Zeros(-dp), digits);
    } else if dp >= nd {
      pn := Put(plain, pn, digits);
      pn := Put(plain, pn, Zeros(dp - nd));
      Joined(sign, digits, Zeros(dp - nd), "");
    } else {
      pn := Put(plain, pn, digits[..dp]);
      pn := Put(plain, pn, ".");
      pn := Put(plain, pn, digits[dp..]);
      Joined(sign, digits[..dp], ".", digits[dp..]);
    }
    out := plain[..pn];
  }

  lemma Joined(a: string, b: string, c: string, d: string)
    ensures a + b + c + d == a + (b + c + d) && a + b + c == a + (b + c)
  {
  }

  /** How a scientific text falls apart at its `e`. */
  lemma ScientificParts(sci: Scientific, e: int)
    requires sci.Valid() && e == Find(sci.Text(), 'e')
    ensures var g := sci.Text();
            e >= 0 && g[e + 1..] == sci.exponent &&
            (g[0] == '-' <==> sci.neg) && g[if sci.neg then 1 else 0..e] == sci.mantissa
  {
    hide Find, IsMantissa, IsExponent;
    var g := sci.Text();
    var sign := if sci.neg then "-" else "";
    MantissaBytes(sci.mantissa);
    assert sci.mantissa[0] != '-' && 'e' !in sign + sci.mantissa;
    FindAfter(sign + sci.mantissa, 'e', sci.exponent);
    assert g == sign + sci.mantissa + ['e'] + sci.exponent;
    assert e == |sign| + |sci.mantissa|;
    assert g[..e] == sign + sci.mantissa && g[e + 1..] == sci.exponent;
    assert g[|sign|..e] == sci.mantissa && g[0] == (sign + sci.mantissa)[0];
  }

  lemma MantissaBytes(m: string)
    requires IsMantissa(m)
    ensures m != "" && forall i | 0 <= i < |m| :: if i == Find(m, '.') then m[i] == '.' else IsDigit(m[i])
  {
    var at := Find(m, '.');
    FindFirst(m, '.');
    forall i | 0 <= i < |m|
      ensures if i == at then m[i] == '.' else IsDigit(m[i])
    {
      if at == -1 {
      } else if i < at {
        assert IsDigit(m[..at][i]);
      } else if i > at {
        assert IsDigit(m[at + 1..][i - at - 1]);
      }
    }
  }

  // ---------------------------------------------------------------------------
  // The number is preserved
  // ---------------------------------------------------------------------------

  /** The number `coeff * 10^exp`, negated if `neg`. */
  datatype Number = Number(neg: bool, coeff: nat, exp: int)

  /** The coefficient of a number that is written with the smaller exponent `exp`. */
  function CoeffAt(x: Number, exp: int): nat
    requires exp <= x.exp
  {
    x.coeff * Pow10(x.exp - exp)
  }

  /** Two notations of one number: the coefficients agree once both have the smaller exponent. */
  predicate SameNumber(x: Number, y: Number) {
    var exp := if x.exp <= y.exp then x.exp else y.exp;
    x.neg == y.neg && CoeffAt(x, exp) == CoeffAt(y, exp)
  }

  /** The number that an unsigned decimal text denotes, with a sign added. */
  function MantissaVal(neg: bool, m: string): Number
    requires IsMantissa(m)
  {
    DigitsValid(m);
    Number(neg, NatVal(Digits(m)), Point(m) - |Digits(m)|)
  }

  lemma DigitsValid(m: string)
    requires IsMantissa(m)
    ensures AllDigits(Digits(m)) && Digits(m) != ""
  {
  }

  /** An optional sign and a decimal number. */
  predicate IsPlain(t: string) {
    t != "" && (if t[0] == '-' then IsMantissa(t[1..]) else IsMantissa(t))
  }

  /** The number that a plain decimal text denotes. */
  function PlainVal(t: string): Number
    requires IsPlain(t)
  {
    if t[0] == '-' then MantissaVal(true, t[1..]) else MantissaVal(false, t)
  }

  /** The number that a scientific text denotes: its mantissa with the exponent added. */
  function ScientificVal(sci: Scientific): Number
    requires sci.Valid()
  {
    var x := MantissaVal(sci.neg, sci.mantissa);
    x.(exp := x.exp + ExponentVal(sci.exponent))
  }

  /** A decimal number with a point in it. */
  lemma PointedVal(neg: bool, m: string, whole: string, frac: string)
    requires AllDigits(whole) && AllDigits(frac) && whole + frac != "" && m == whole + ['.'] + frac
    ensures IsMantissa(m) && AllDigits(whole + frac)
    ensures MantissaVal(neg, m) == Number(neg, NatVal(whole + frac), -|frac|)
  {
    FindAfter(whole, '.', frac);
    assert m[..|whole|] == whole && m[|whole| + 1..] == frac;
    assert Digits(m) == whole + frac;
  }

  lemma PointlessVal(neg: bool, m: string)
    requires m != "" && AllDigits(m)
    ensures IsMantissa(m) && MantissaVal(neg, m) == Number(neg, NatVal(m), 0)
  {
    FindFirst(m, '.');
  }

  lemma {:induction false} ZerosVal(k: nat)
    ensures NatVal(Zeros(k)) == 0
  {
    if k > 0 {
      assert Zeros(k)[..k - 1] == Zeros(k - 1);
      ZerosVal(k - 1);
    }
  }

  /** What an unsigned expansion denotes. */
  ghost predicate Denotes(neg: bool, m: string, digits: string, dp: int)
    requires AllDigits(digits)
  {
    && m != "" && m[0] != '-' && IsMantissa(m)
    && SameNumber(MantissaVal(neg, m), Number(neg, NatVal(digits), dp - |digits|))
  }

  lemma FractionalExpansion(neg: bool, digits: string, dp: int)
    requires digits != "" && AllDigits(digits) && dp <= 0
    ensures Denotes(neg, Expanded(false, digits, dp), digits, dp)
  {
    hide MantissaVal, IsMantissa, NatVal;
    var m := Expanded(false, digits, dp);
    var zeros := Zeros(-dp + 1);
    var frac := Zeros(-dp) + digits;
    assert m == "0" + ['.'] + frac;
    PointedVal(neg, m, "0", frac);
    NatValConcat(zeros, digits);
    ZerosVal(-dp + 1);
    assert "0" + frac == zeros + digits;
  }

  lemma WholeExpansion(neg: bool, digits: string, dp: int)
    requires digits != "" && AllDigits(digits) && dp > 0 && dp >= |digits|
    ensures Denotes(neg, Expanded(false, digits, dp), digits, dp)
  {
    hide NatVal, MantissaVal, IsMantissa;
    var m := Expanded(false, digits, dp);
    var k := dp - |digits|;
    NatValConcat(digits, Zeros(k));
    assert m == digits + Zeros(k);
    PointlessVal(neg, m);
    ZerosVal(k);
  }

  lemma InnerExpansion(neg: bool, digits: string, dp: int)
    requires AllDigits(digits) && 0 < dp < |digits|
    ensures Denotes(neg, Expanded(false, digits, dp), digits, dp)
  {
    hide MantissaVal, IsMantissa, NatVal;
    var m := Expanded(false, digits, dp);
    assert m == digits[..dp] + ['.'] + digits[dp..];
    PointedVal(neg, m, digits[..dp], digits[dp..]);
    assert digits[..dp] + digits[dp..] == digits;
  }

  lemma UnsignedExpansionValue(neg: bool, digits: string, dp: int)
    requires digits != "" && AllDigits(digits)
    ensures Denotes(neg, Expanded(false, digits, dp), digits, dp)
  {
    hide Denotes, Expanded;
    if dp <= 0 {
      FractionalExpansion(neg, digits, dp);
    } else if dp >= |digits| {
      WholeExpansion(neg, digits, dp);
    } else {
      InnerExpansion(neg, digits, dp);
    }
  }

  lemma SignInFront(neg: bool, digits: string, dp: int)
    ensures Expanded(neg, digits, dp) == (if neg then "-" else "") + Expanded(false, digits, dp)
  {
  }

  /** In all three layouts the plain text denotes digits * 10^(decimal point - number of digits). */
  lemma ExpansionValue(neg: bool, digits: string, dp: int)
    requires digits != "" && AllDigits(digits)
    ensures var t := Expanded(neg, digits, dp);
            IsPlain(t) && SameNumber(PlainVal(t), Number(neg, NatVal(digits), dp - |digits|))
  {
    hide MantissaVal, IsMantissa, NatVal, SameNumber, Expanded;
    UnsignedExpansionValue(neg, digits, dp);
    SignInFront(neg, digits, dp);
    var m := Expanded(false, digits, dp);
    assert neg ==> Expanded(neg, digits, dp)[1..] == m;
  }

  /** Expanding changes the notation and never the number. */
  lemma ExpansionPreservesNumber(sci: Scientific)
    requires sci.Valid()
    ensures var t := Expanded(sci.neg, Digits(sci.mantissa), sci.DecimalPoint());
            IsPlain(t) && SameNumber(PlainVal(t), ScientificVal(sci))
  {
    hide Expanded, NatVal, Digits, Point, SameNumber, PlainVal, IsPlain;
    DigitsValid(sci.mantissa);
    ExpansionValue(sci.neg, Digits(sci.mantissa), sci.DecimalPoint());
  }

  // ---------------------------------------------------------------------------
  // Both kinds of text
  // ---------------------------------------------------------------------------

  /** A `%g` text of either style: plain already, or scientific. */
  datatype General = Plain(text: string) | Exponential(sci: Scientific) {

    predicate Valid() {
      match this
      case Plain(text) => IsPlain(text)
      case Exponential(sci) => sci.Valid()
    }

    function Text(): string {
      match this
      case Plain(text) => text
      case Exponential(sci) => sci.Text()
    }

    /** The number that the `%g` text denotes. */
    function Value(): Number
      requires Valid()
    {
      match this
      case Plain(text) => PlainVal(text)
      case Exponential(sci) => ScientificVal(sci)
    }

    /** What is printed for it. */
    function Printed(): string
      requires Valid()
    {
      match this
      case Plain(text) => text
      case Exponential(sci) => Expanded(sci.neg, Digits(sci.mantissa), sci.DecimalPoint())
    }
  }

  /** An `e` in the text tells the two kinds apart, as the printer takes it to. */
  lemma KindShows(g: General)
    requires g.Valid()
    ensures 'e' in g.Text() <==> g.Exponential?
  {
    match g
    case Plain(text) =>
      var m := if text[0] == '-' then text[1..] else text;
      MantissaBytes(m);
      assert text == if text[0] == '-' then "-" + m else m;
    case Exponential(sci) =>
      ScientificParts(sci, Find(sci.Text(), 'e'));
      FindFirst(sci.Text(), 'e');
  }

  lemma SameAsItself(x: Number)
    ensures SameNumber(x, x)
  {
  }

  /** Whichever kind it is, the number survives. */
  lemma PrintedValue(g: General)
    requires g.Valid()
    ensures IsPlain(g.Printed()) && SameNumber(PlainVal(g.Printed()), g.Value())
  {
    hide SameNumber, IsPlain, PlainVal, Expanded, Digits, ScientificVal;
    match g
    case Plain(text) => SameAsItself(PlainVal(text));
    case Exponential(sci) => ExpansionPreservesNumber(sci);
  }

  /** Any common exponent, however small, decides whether two notations denote one number. */
  lemma SameAtAnyExponent(x: Number, y: Number, low: int)
    requires low <= x.exp && low <= y.exp
    ensures SameNumber(x, y) <==> x.neg == y.neg && CoeffAt(x, low) == CoeffAt(y, low)
  {
    var exp := if x.exp <= y.exp then x.exp else y.exp;
    Rescaled(x, exp, low);
    Rescaled(y, exp, low);
    Cancel(CoeffAt(x, exp), CoeffAt(y, exp), Pow10(exp - low));
  }

  lemma Rescaled(x: Number, exp: int, low: int)
    requires low <= exp <= x.exp
    ensures CoeffAt(x, low) == CoeffAt(x, exp) * Pow10(exp - low)
  {
    Pow10Sum(x.exp - exp, exp - low);
    assert x.exp - exp + (exp - low) == x.exp - low;
    hide Pow10;
    Regroup(x.coeff, Pow10(x.exp - exp), Pow10(exp - low));
  }

  lemma Regroup(a: int, b: int, c: int)
    ensures a * (b * c) == a * b * c
  {
  }

  lemma Cancel(a: int, b: int, p: int)
    requires p > 0
    ensures a * p == b * p <==> a == b
  {
  }

  /** Two printed texts that agree were printed for the same number. */
  lemma PrintedDeterminesNumber(g: General, h: General)
    requires g.Valid() && h.Valid() && g.Printed() == h.Printed()
    ensures SameNumber(g.Value(), h.Value())
  {
    PrintedValue(g);
    PrintedValue(h);
    var x, y, z := g.Value(), PlainVal(g.Printed()), h.Value();
    hide IsPlain, PlainVal, Expanded, Digits, SameNumber, CoeffAt;
    var low := if x.exp <= y.exp then x.exp else y.exp;
    low := if low <= z.exp then low else z.exp;
    SameAtAnyExponent(y, x, low);
    SameAtAnyExponent(y, z, low);
    SameAtAnyExponent(x, z, low);
  }

  /** `1e+20` is written out, and `-1.5e-07` gets its zeros in front. */
  lemma DocumentedTexts()
    ensures var big := Scientific(false, "1", "+20");
            big.Valid() && Exponential(big).Printed() == "1" + Zeros(20)
    ensures var small := Scientific(true, "1.5", "-07");
            small.Valid() && Exponential(small).Printed() == "-" + "0." + Zeros(6) + "15"
  {
    DocumentedExponents();
    DocumentedMantissas();
    hide IsExponent, ExponentVal, IsMantissa, Digits, Point;
  }

  lemma DocumentedMantissas()
    ensures IsMantissa("1") && Digits("1") == "1" && Point("1") == 1
    ensures IsMantissa("1.5") && Digits("1.5") == "15" && Point("1.5") == 1
  {
    FindFirst("1", '.');
    FindAfter("1", '.', "5");
    hide Find;
    assert "1" + ['.'] + "5" == "1.5" && "1.5"[..1] == "1" && "1.5"[2..] == "5";
  }

  lemma DocumentedExponents()
    ensures IsExponent("+20") && ExponentVal("+20") == 20
    ensures IsExponent("-07") && ExponentVal("-07") == -7
  {
    TwoDigits("20");
    TwoDigits("07");
    hide NatVal;
    assert "+20"[1..] == "20" && "-07"[1..] == "07";
  }

  lemma TwoDigits(s: string)
    requires |s| == 2 && AllDigits(s)
    ensures NatVal(s) == 10 * DigitVal(s[0]) + DigitVal(s[1])
  {
    assert s[..1][..0] == "" && NatVal("") == 0;
    assert NatVal(s[..1]) == DigitVal(s[0]);
  }
}
