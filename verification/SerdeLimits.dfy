/**
 Where the documented promises of the codec hold and where they do not: 64-bit integers, how much text
 a parse consumes, and which Strings survive.
 */
module SerdeLimits {
  import opened Decimal
  import opened KiraStrings
  import opened Outcomes
  import opened SerdeCodec
  import opened SerdeGrammar
  import opened SerdeScanner
  import opened SerdeSchema
  import opened SerdeTheorems

  // ---------------------------------------------------------------------------
  // Integers
  // ---------------------------------------------------------------------------

  /** No multiplication or addition of the digit loop leaves the 64-bit range. */
  ghost predicate StepsFit(digits: string)
    requires AllDigits(digits)
  {
    forall i | 0 <= i < |digits| :: StepFits(digits, i)
  }

  predicate StepFits(digits: string, i: nat)
    requires AllDigits(digits) && i < |digits|
  {
    InRange64(NatVal(digits[..i]) * 10) && InRange64(NatVal(digits[..i + 1]))
  }

  /** Every 64-bit integer reads back; the loop leaves the range on the smallest one and on no other. */
  lemma IntRoundTrip(n: int)
    requires InRange64(n)
    ensures ParsedInt(IntText(n)) == Ok(VInt(n))
    ensures var digits := NatText(if n < 0 then -n else n);
            AllDigits(digits) && (StepsFit(digits) <==> n != MIN64)
  {
    IntTextReadsBack(n);
    var m := if n < 0 then -n else n;
    var digits := NatText(m);
    NatTextReadsBack(m);
    DigitStepsBounded(digits);
    assert digits[..|digits|] == digits;
    assert n == MIN64 ==> !StepFits(digits, |digits| - 1);
  }

  /** Every digit is read as what it shows. */
  lemma AllDigitsRead()
    ensures ParsedInt("1234567890") == Ok(VInt(1234567890)) && ParsedInt("-" + "1234567890") == Ok(VInt(-1234567890))
  {
    AllDigitsPrinted();
    hide IntText, ParsedInt;
    IntRoundTrip(1234567890);
    IntRoundTrip(-1234567890);
  }

  lemma DigitStepsBounded(digits: string)
    requires AllDigits(digits)
    ensures NatVal(digits) <= MAX64 ==> StepsFit(digits)
  {
    forall i | 0 <= i < |digits| && NatVal(digits) <= MAX64
      ensures StepFits(digits, i)
    {
      NatValPrefixStep(digits, i);
      NatValPrefix(digits, i + 1);
    }
  }

  /** An unsigned numeral of 19 digits that does not fit: it wraps to a negative number. */
  predicate Overlong(s: string) {
    AllDigits(s) && |s| == 19 && NatVal(s) > MAX64
  }

  lemma Pow10Nineteen()
    ensures Pow10(18) == 1_000_000_000_000_000_000 && Pow10(19) == 10_000_000_000_000_000_000
  {
    assert Pow10(6) == 1_000_000;
    assert Pow10(12) == 1_000_000_000_000;
  }

  lemma {:induction false} Pow10Monotone(a: nat, b: nat)
    requires a <= b
    ensures Pow10(a) <= Pow10(b)
    decreases b
  {
    if a < b {
      Pow10Monotone(a, b - 1);
    }
  }

  /** Writing a numeral's value takes no more bytes than the numeral did, unless it is overlong. */
  lemma ShortestNumeral(s: string)
    requires IsNumeral(s)
    ensures |IntText(Wrap64(NumeralVal(s)))| <= |s| <==> !Overlong(s)
    ensures |IntText(Wrap64(NumeralVal(s)))| <= |s| + 1
  {
    var val := NumeralVal(s);
    var n := Wrap64(val);
    var digits := if s[0] == '-' then s[1..] else s;
    assert s[0] == '-' ==> !AllDigits(s);
    Pow10Nineteen();
    NatTextLength(if n < 0 then -n else n, 19);
    NatTextShortest(digits);
    if InRange64(val) {
      assert n == val;
    } else {
      NatValBound(digits);
      if |digits| < 19 {
        Pow10Monotone(|digits|, 18);
        assert false;
      }
      if Overlong(s) {
        assert n == val - 0x1_0000_0000_0000_0000;
        NatTextLength(-n, 18);
      }
    }
  }

  // ---------------------------------------------------------------------------
  // How much is read
  // ---------------------------------------------------------------------------

  /** The text from the closing brace on. */
  function Unread(ty: Type, s: string): string
    requires ty.TStruct? && Deserialized(ty, s).Ok?
  {
    DeserializedFields(ty.fields, s[Find(s, '{') + 1..]).value.1
  }

  lemma UnreadIsRest(ty: Type, s: string)
    requires ty.TStruct? && Deserialized(ty, s).Ok?
    ensures 0 < |Unread(ty, s)| <= |s|
  {
    hide MatchesFields, Find;
    var text := s[Find(s, '{') + 1..];
    var body := MatchesAcceptedFields(ty.fields, text);
  }

  /** The number of bytes up to and including the closing brace. */
  function Consumed(ty: Type, s: string): (n: nat)
    requires ty.TStruct? && Deserialized(ty, s).Ok?
    ensures n <= |s|
  {
    UnreadIsRest(ty, s);
    |s| - |Unread(ty, s)| + 1
  }

  /** What was consumed is the name and a body of the grammar in braces. */
  lemma ConsumedBody(ty: Type, s: string) returns (body: string)
    requires ty.TStruct? && Deserialized(ty, s).Ok?
    ensures Braced(ty.name, body) <= s && |Braced(ty.name, body)| == Consumed(ty, s)
    ensures Deserialized(ty, s).value.VStruct?
    ensures MatchesFields(ty.fields, body, Deserialized(ty, s).value.values)
  {
    hide MatchesFields, Find;
    var brace := Find(s, '{');
    var text := s[brace + 1..];
    body := MatchesAcceptedFields(ty.fields, text);
    SplitAtBrace(s, ty.name, body, DeserializedFields(ty.fields, text).value.1);
  }

  lemma BracedMatches(ty: Type, body: string, other: string, v: Value)
    requires ty.TStruct? && v.VStruct? && MatchesFields(ty.fields, body, v.values)
    requires Braced(ty.name, body) <= other
    ensures Matches(ty, other, v)
  {
    hide MatchesFields, Braced;
  }

  /** Nothing after the closing brace matters: any text that shares the consumed part reads the same. */
  lemma OnlyConsumedTextMatters(ty: Type, s: string, other: string)
    requires ty.TStruct? && WellNamed(ty) && Deserialized(ty, s).Ok?
    requires s[..Consumed(ty, s)] <= other
    ensures Deserialized(ty, other) == Deserialized(ty, s)
  {
    hide Deserialized, DeserializedFields, Matches, MatchesFields, Find, Consumed, Braced, WellNamed;
    var body := ConsumedBody(ty, s);
    var consumed := Braced(ty.name, body);
    assert s[..Consumed(ty, s)] == consumed;
    BracedMatches(ty, body, other, Deserialized(ty, s).value);
    Acceptance(ty, other, Deserialized(ty, s).value);
  }

  lemma {:induction false} DeserializedTyped(ty: Type, s: string)
    requires Deserialized(ty, s).Ok?
    ensures HasType(Deserialized(ty, s).value, ty)
    decreases ty
  {
    if ty.TStruct? {
      DeserializedFieldsTyped(ty.fields, s[Find(s, '{') + 1..]);
    }
  }

  lemma {:induction false} DeserializedFieldsTyped(fs: Fields, s: string)
    requires DeserializedFields(fs, s).Ok?
    ensures HaveTypes(DeserializedFields(fs, s).value.0, fs)
    decreases fs
  {
    hide Carved;
    if fs.Field? {
      var (val, after) := Carved(fs.key, s).value;
      DeserializedTyped(fs.ty, val);
      if fs.rest.Field? {
        DeserializedFieldsTyped(fs.rest, after[1..]);
      }
    }
  }

  // ---------------------------------------------------------------------------
  // Strings in and out of contract
  // ---------------------------------------------------------------------------

  lemma {:induction false} OpenBraceCounts(s: string)
    requires '}' !in s
    ensures Depth(s) >= 0 && (Depth(s) == 0 <==> '{' !in s)
  {
    if s != "" {
      assert s == [s[0]] + s[1..];
      OpenBraceCounts(s[1..]);
    }
  }

  /** No String anywhere inside the value holds `c`. */
  predicate StringsAvoid(v: Value, c: char) {
    match v
    case VInt(_) => true
    case VBool(_) => true
    case VString(text) => c !in text
    case VStruct(vs) => AllStringsAvoid(vs, c)
  }

  predicate AllStringsAvoid(vs: Values, c: char) {
    vs.Cons? ==> StringsAvoid(vs.head, c) && AllStringsAvoid(vs.tail, c)
  }

  /** A String without `;` and `}` is neutral exactly if it has no `{` either. */
  lemma OpenBraceIsUnsheltered(text: string)
    requires ';' !in text && '}' !in text
    ensures Neutral(text) <==> '{' !in text
  {
    OpenBraceCounts(text);
    if '{' !in text {
      PlainIsNeutral(text);
    }
  }

  lemma {:induction false} InContractNeutral(v: Value)
    requires StringsAvoid(v, ';') && StringsAvoid(v, '}')
    ensures StringsNeutral(v) <==> StringsAvoid(v, '{')
    decreases v
  {
    hide Neutral;
    match v
    case VInt(_) =>
    case VBool(_) =>
    case VString(text) => OpenBraceIsUnsheltered(text);
    case VStruct(vs) => AllInContractNeutral(vs);
  }

  lemma {:induction false} AllInContractNeutral(vs: Values)
    requires AllStringsAvoid(vs, ';') && AllStringsAvoid(vs, '}')
    ensures AllStringsNeutral(vs) <==> AllStringsAvoid(vs, '{')
    decreases vs
  {
    if vs.Cons? {
      InContractNeutral(vs.head);
      AllInContractNeutral(vs.tail);
    }
  }

  /**
   The documentation puts a String out of contract if it has a `"`, a `;` or a `}`.  A value all of whose
   Strings are in contract comes back, whatever text follows, if and only if none of them has a `{`.
   */
  lemma InContractSurvives(ty: Type, v: Value, t: string)
    requires ty.TStruct? && WellNamed(ty) && HasType(v, ty)
    requires StringsAvoid(v, '"') && StringsAvoid(v, ';') && StringsAvoid(v, '}')
    ensures Deserialized(ty, Serialized(ty, v) + t) == Ok(v) <==> StringsAvoid(v, '{')
  {
    RoundTrip(ty, v, t);
    InContractNeutral(v);
  }

  /** The text with every `"` left out. */
  function WithoutQuotes(s: string): string {
    if s == "" then ""
    else WithoutQuotes(s[..|s| - 1]) + if s[|s| - 1] == '"' then "" else [s[|s| - 1]]
  }

  /** Every `;` and `}` stands inside some open brace. */
  ghost predicate Sheltered(s: string) {
    forall i | 0 <= i < |s| && IsTerminator(s[i]) :: Depth(s[..i]) > 0
  }

  lemma ShelteredStep(p: string, c: char)
    ensures Sheltered(p + [c]) <==> Sheltered(p) && (IsTerminator(c) ==> Depth(p) > 0)
    ensures Depth(p + [c]) == Depth(p) + Delta(c)
  {
    var s := p + [c];
    DepthConcat(p, [c]);
    assert Depth([c]) == Delta(c) by { assert [c][1..] == ""; }
    hide Depth;
    assert s[..|p|] == p;
    assert forall i | 0 <= i < |p| :: s[i] == p[i] && s[..i] == p[..i];
    if Sheltered(s) {
      assert IsTerminator(s[|p|]) ==> Depth(s[..|p|]) > 0;
      forall i | 0 <= i < |p| && IsTerminator(p[i])
        ensures Depth(p[..i]) > 0
      {
        assert IsTerminator(s[i]);
      }
    }
  }

  /** Quotes are harmless anywhere: leaving them out of a text changes neither its depth nor its neutrality. */
  lemma {:induction false} QuotesHarmless(s: string)
    ensures Depth(WithoutQuotes(s)) == Depth(s)
    ensures Neutral(WithoutQuotes(s)) <==> Neutral(s)
    ensures Sheltered(WithoutQuotes(s)) <==> Sheltered(s)
  {
    NeutralIsSheltered(s);
    NeutralIsSheltered(WithoutQuotes(s));
    hide Depth, Sheltered, Neutral;
    if s != "" {
      var p, c := s[..|s| - 1], s[|s| - 1];
      QuotesHarmless(p);
      assert s == p + [c];
      var q := WithoutQuotes(p);
      assert WithoutQuotes(s) == if c == '"' then q else q + [c];
      hide WithoutQuotes;
      ShelteredStep(p, c);
      ShelteredStep(q, c);
    }
  }

  lemma NeutralIsSheltered(s: string)
    ensures Neutral(s) <==> Depth(s) == 0 && Sheltered(s)
  {
    hide Depth;
  }

  /** A String with quotes around and inside, balanced braces and a `;` between them comes back all the same. */
  lemma OutOfContractStringSurvives(ty: Type, t: string)
    requires ty.TStruct? && WellNamed(ty) && ty.fields.Field? && ty.fields.ty.TString? && ty.fields.rest.NoFields?
    ensures var v := VStruct(Cons(VString("\"{;}"), NoValues));
            Deserialized(ty, Serialized(ty, v) + t) == Ok(v)
  {
    var text := "\"{;}";
    assert text == ['"'] + ("{" + ";" + "}");
    JoinedBalanced("", "") by { assert Balanced(""); }
    assert "" + [';'] + "" == ";";
    BracedIsNeutral(";");
    PlainIsNeutral(['"']);
    NeutralConcat(['"'], "{" + ";" + "}");
    RoundTrip(ty, VStruct(Cons(VString(text), NoValues)), t);
  }
}
