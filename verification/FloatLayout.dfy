/** The shape of expanded float texts: how long they are, which layout is used, and that none is ambiguous. */
module FloatLayout {
  import opened Decimal
  import opened FloatText
  import opened KiraStrings

  /** A nonzero mantissa in scientific form: one digit, not 0, before the point and no trailing zero after it. */
  predicate Normalised(sci: Scientific) {
    && sci.Valid() && Point(sci.mantissa) == 1
    && var digits := Digits(sci.mantissa);
       digits != "" && digits[0] != '0' && digits[|digits| - 1] != '0'
  }

  /**
   What section 7.21.6.1 of ISO/IEC 9899:2011 says of `%.{precision}g` text that has an exponent: at most
   `precision` digits, and style e is chosen only for an exponent below -4 or not below the precision.
   */
  predicate StyleE(sci: Scientific, precision: nat) {
    && Normalised(sci) && 1 <= precision <= 17 && |Digits(sci.mantissa)| <= precision
    && (ExponentVal(sci.exponent) < -4 || ExponentVal(sci.exponent) >= precision)
  }

  function PlainText(sci: Scientific): string
    requires sci.Valid()
  {
    Expanded(sci.neg, Digits(sci.mantissa), sci.DecimalPoint())
  }

  /** For every exponent a double can have, 343 bytes suffice; the buffers are never overrun. */
  lemma BufferBound(sci: Scientific)
    requires Normalised(sci) && |Digits(sci.mantissa)| <= 17 && -324 <= ExponentVal(sci.exponent) <= 308
    ensures |PlainText(sci)| <= 343 <= PLAIN_BUFFER && |sci.mantissa| <= 18 <= DIGIT_BUFFER
  {
  }

  /** The bound is attained: 343 bytes are needed for a negative subnormal with 17 digits. */
  lemma BufferBoundTight(sci: Scientific)
    requires Normalised(sci) && |Digits(sci.mantissa)| == 17 && ExponentVal(sci.exponent) == -324 && sci.neg
    ensures |PlainText(sci)| == 343
  {
  }

  /**
   Given the style rule the point never falls inside the digits, so only two layouts occur: a fraction
   that ends in a nonzero digit for negative exponents, and an integer without a point for the others.
   */
  lemma TwoLayouts(sci: Scientific, precision: nat)
    requires StyleE(sci, precision)
    ensures !(0 < sci.DecimalPoint() < |Digits(sci.mantissa)|)
    ensures var t := PlainText(sci);
            && ('.' in t <==> ExponentVal(sci.exponent) < 0)
            && ('.' in t ==> t[|t| - 1] != '0')
            && ('.' !in t ==> |t| == ExponentVal(sci.exponent) + (if sci.neg then 2 else 1))
  {
  }

  /** Trailing zeros never follow a point, whichever layout is used. */
  lemma NoTrailingZero(neg: bool, digits: string, dp: int)
    requires digits != "" && AllDigits(digits) && digits[|digits| - 1] != '0'
    ensures var t := Expanded(neg, digits, dp);
            t != "" && ('.' in t ==> t[|t| - 1] != '0')
  {
  }

  // ---------------------------------------------------------------------------
  // Injectivity
  // ---------------------------------------------------------------------------

  lemma LeadingZerosUnique(j: nat, d: string, k: nat, e: string)
    requires d != "" && e != "" && d[0] != '0' && e[0] != '0'
    requires Zeros(j) + d == Zeros(k) + e
    ensures j == k && d == e
  {
    var s, s' := Zeros(j) + d, Zeros(k) + e;
    assert s[j] == d[0] && s'[k] == e[0];
    assert forall i | 0 <= i < j :: s[i] == '0';
    assert forall i | 0 <= i < k :: s'[i] == '0';
    assert s[j..] == d && s'[k..] == e;
  }

  lemma TrailingZerosUnique(d: string, j: nat, e: string, k: nat)
    requires d != "" && e != "" && d[|d| - 1] != '0' && e[|e| - 1] != '0'
    requires d + Zeros(j) == e + Zeros(k)
    ensures j == k && d == e
  {
    var s, s' := d + Zeros(j), e + Zeros(k);
    assert s[|d| - 1] == d[|d| - 1] && s'[|e| - 1] == e[|e| - 1];
    assert forall i | |d| <= i < |s| :: s[i] == '0';
    assert forall i | |e| <= i < |s'| :: s'[i] == '0';
    assert s[..|d|] == d && s'[..|e|] == e;
  }

  predicate Trimmed(digits: string) {
    AllDigits(digits) && digits != "" && digits[0] != '0' && digits[|digits| - 1] != '0'
  }

  /** Where the point stands in an unsigned expansion, and what stands before it. */
  ghost predicate PointKnown(m: string, digits: string, dp: int)
    requires digits != ""
  {
    && m != ""
    && (dp <= 0 ==> Find(m, '.') == 1 && |m| > 1 && m[0] == '0' && m[2..] == Zeros(-dp) + digits)
    && (dp > 0 ==> m[0] == digits[0])
    && (0 < dp < |digits| ==> Find(m, '.') == dp && m[..dp] + m[dp + 1..] == digits)
    && (dp > 0 && dp >= |digits| ==> Find(m, '.') == -1)
  }

  lemma PointPosition(digits: string, dp: int)
    requires Trimmed(digits)
    ensures PointKnown(Expanded(false, digits, dp), digits, dp)
  {
    if dp <= 0 {
      FractionPoint(digits, dp);
    } else if dp >= |digits| {
      WholeHasNoPoint(digits, dp);
    } else {
      InnerPoint(digits, dp);
    }
  }

  lemma FractionPoint(digits: string, dp: int)
    requires Trimmed(digits) && dp <= 0
    ensures PointKnown(Expanded(false, digits, dp), digits, dp)
  {
    hide Find, Trimmed;
    FindAfter("0", '.', Zeros(-dp) + digits);
    assert Expanded(false, digits, dp) == "0" + ['.'] + (Zeros(-dp) + digits);
  }

  lemma InnerPoint(digits: string, dp: int)
    requires Trimmed(digits) && 0 < dp < |digits|
    ensures PointKnown(Expanded(false, digits, dp), digits, dp)
  {
    hide Find;
    FindAfter(digits[..dp], '.', digits[dp..]);
    assert Expanded(false, digits, dp) == digits[..dp] + ['.'] + digits[dp..];
  }

  lemma WholeHasNoPoint(digits: string, dp: int)
    requires Trimmed(digits) && dp > 0 && dp >= |digits|
    ensures var m := Expanded(false, digits, dp);
            m != "" && m[0] == digits[0] && Find(m, '.') == -1
  {
    hide Find;
    var m := Expanded(false, digits, dp);
    assert m == digits + Zeros(dp - |digits|);
    FindFirst(m, '.');
  }

  /** Two expansions agree only if sign, digits and point position agree: no two scientific texts share one. */
  lemma ExpandedInjective(neg: bool, d: string, j: int, neg': bool, e: string, k: int)
    requires Trimmed(d) && Trimmed(e)
    requires Expanded(neg, d, j) == Expanded(neg', e, k)
    ensures neg == neg' && d == e && j == k
  {
    var m, m' := Expanded(false, d, j), Expanded(false, e, k);
    PointPosition(d, j);
    PointPosition(e, k);
    SameUnsigned(neg, d, j, neg', e, k);
    if j <= 0 {
      LeadingZerosUnique(-j, d, -k, e);
    } else if j >= |d| {
      assert m == d + Zeros(j - |d|) && m' == e + Zeros(k - |e|);
      TrailingZerosUnique(d, j - |d|, e, k - |e|);
    }
  }

  lemma SameUnsigned(neg: bool, d: string, j: int, neg': bool, e: string, k: int)
    requires Trimmed(d) && Trimmed(e)
    requires Expanded(neg, d, j) == Expanded(neg', e, k)
    ensures neg == neg' && Expanded(false, d, j) == Expanded(false, e, k)
  {
    var m, m' := Expanded(false, d, j), Expanded(false, e, k);
    assert m[0] != '-' && m'[0] != '-';
    var s, s' := Expanded(neg, d, j), Expanded(neg', e, k);
    assert s == (if neg then "-" else "") + m;
    assert s' == (if neg' then "-" else "") + m';
    assert neg ==> s[1..] == m;
    assert neg' ==> s'[1..] == m';
  }
}
