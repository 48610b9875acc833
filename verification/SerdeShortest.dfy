/**
 How much text a value needs: the shortest text that is read as a given value, exactly, and so when the
 printer's text is the shortest.
 */
module SerdeShortest {
  import opened Decimal
  import opened KiraStrings
  import opened Outcomes
  import opened SerdeCodec
  import opened SerdeGrammar
  import opened SerdeLimits
  import opened SerdeScanner
  import opened SerdeSchema
  import opened SerdeTheorems

  /** How many overlong numerals an accepted text holds, at any depth. */
  function OverlongIn(ty: Type, s: string): nat
    decreases ty
  {
    match ty
    case TInt => if Overlong(s) then 1 else 0
    case TBool => 0
    case TString => 0
    case TStruct(_, fs) => OverlongInFields(fs, s[Find(s, '{') + 1..])
  }

  function OverlongInFields(fs: Fields, s: string): nat
    decreases fs
  {
    if fs.NoFields? || Carved(fs.key, s).Trap? then 0
    else
      var (val, after) := Carved(fs.key, s).value;
      OverlongIn(fs.ty, val) + if after == "" then 0 else OverlongInFields(fs.rest, after[1..])
  }

  /**
   Shortest form: re-encoding a value never takes more bytes than were read for it, save one byte for
   each overlong numeral in the text.
   */
  lemma {:induction false} ShortestForm(ty: Type, s: string)
    requires Deserialized(ty, s).Ok?
    ensures HasType(Deserialized(ty, s).value, ty)
    ensures var n := |Serialized(ty, Deserialized(ty, s).value)|;
            n <= (if ty.TStruct? then Consumed(ty, s) else |s|) + OverlongIn(ty, s)
    decreases ty
  {
    DeserializedTyped(ty, s);
    match ty
    case TInt => ShortestNumeral(s);
    case TBool =>
    case TString =>
    case TStruct(name, fs) =>
      StructConsumed(ty, s);
      ShortestFields(fs, s[Find(s, '{') + 1..]);
      hide Deserialized, Consumed, OverlongInFields, DeserializedFields, SerializedFields, Find;
  }

  /** The value of a struct text, and what its text and its fields take up. */
  lemma StructConsumed(ty: Type, s: string)
    requires ty.TStruct? && Deserialized(ty, s).Ok?
    ensures Find(s, '{') == |ty.name| < |s|
    ensures var fields := DeserializedFields(ty.fields, s[Find(s, '{') + 1..]);
            && fields.Ok? && Deserialized(ty, s).value == VStruct(fields.value.0)
            && Consumed(ty, s) == |s| - |fields.value.1| + 1
  {
    hide DeserializedFields;
    UnreadIsRest(ty, s);
  }

  lemma {:induction false} ShortestFields(fs: Fields, s: string)
    requires DeserializedFields(fs, s).Ok?
    ensures var (vs, left) := DeserializedFields(fs, s).value;
            HaveTypes(vs, fs) && |left| <= |s| &&
            |SerializedFields(fs, vs)| <= |s| - |left| + OverlongInFields(fs, s)
    decreases fs
  {
    hide Serialized, Deserialized, Carved, OverlongIn;
    DeserializedFieldsTyped(fs, s);
    var (vs, left) := DeserializedFields(fs, s).value;
    SerializedFieldsForm(fs, vs);
    if fs.Field? {
      var (val, after) := Carved(fs.key, s).value;
      CarvedInverse(fs.key, s);
      ShortestForm(fs.ty, val);
      if fs.rest.Field? {
        ShortestFields(fs.rest, after[1..]);
      }
    }
  }

  /** The exception is real: the 19 bytes of 2^63 are read as the smallest integer, which takes 20. */
  lemma OverlongNumeralGrows()
    ensures var s := NatText(0x8000_0000_0000_0000);
            Overlong(s) && ParsedInt(s) == Ok(VInt(MIN64)) && |IntText(MIN64)| == |s| + 1
  {
    var s := NatText(0x8000_0000_0000_0000);
    NatTextReadsBack(0x8000_0000_0000_0000);
    Pow10Nineteen();
    NatTextLength(0x8000_0000_0000_0000, 18);
    NatTextLength(0x8000_0000_0000_0000, 19);
    assert IsDigit(s[0]);
    ShortestNumeral(s);
  }

  // ---------------------------------------------------------------------------
  // The integers that a shorter numeral wraps to
  // ---------------------------------------------------------------------------

  const TWO64: int := 0x1_0000_0000_0000_0000

  /** The integer is what some unsigned numeral of 19 digits wraps to. */
  predicate Wrapped(n: int) {
    MIN64 <= n < 10_000_000_000_000_000_000 - TWO64
  }

  function WrappedLeaves(v: Value): nat {
    match v
    case VInt(n) => if Wrapped(n) then 1 else 0
    case VBool(_) => 0
    case VString(_) => 0
    case VStruct(vs) => AllWrappedLeaves(vs)
  }

  function AllWrappedLeaves(vs: Values): nat {
    if vs.NoValues? then 0 else WrappedLeaves(vs.head) + AllWrappedLeaves(vs.tail)
  }

  lemma OverlongWraps(s: string)
    requires Overlong(s)
    ensures IsNumeral(s) && Wrapped(Wrap64(NumeralVal(s)))
  {
    Pow10Nineteen();
    NatValBound(s);
    assert IsDigit(s[0]);
    assert Wrap64(NatVal(s)) == NatVal(s) - TWO64;
  }

  /** Every overlong numeral of a text gives a wrapped leaf of the value. */
  lemma {:induction false} OverlongGivesWrapped(ty: Type, s: string)
    requires Deserialized(ty, s).Ok?
    ensures OverlongIn(ty, s) <= WrappedLeaves(Deserialized(ty, s).value)
    decreases ty
  {
    hide Wrapped, Overlong;
    match ty
    case TInt =>
      if Overlong(s) {
        OverlongWraps(s);
      }
    case TBool =>
    case TString =>
    case TStruct(_, fs) => OverlongGivesWrappedFields(fs, s[Find(s, '{') + 1..]);
  }

  lemma {:induction false} OverlongGivesWrappedFields(fs: Fields, s: string)
    requires DeserializedFields(fs, s).Ok?
    ensures OverlongInFields(fs, s) <= AllWrappedLeaves(DeserializedFields(fs, s).value.0)
    decreases fs
  {
    hide Deserialized, Carved, OverlongIn, WrappedLeaves;
    if fs.Field? {
      var (val, after) := Carved(fs.key, s).value;
      OverlongGivesWrapped(fs.ty, val);
      if fs.rest.Field? {
        OverlongGivesWrappedFields(fs.rest, after[1..]);
      }
    }
  }

  // ---------------------------------------------------------------------------
  // The shortest text
  // ---------------------------------------------------------------------------

  /** The printed text, but with each wrapped integer as the numeral that wraps to it. */
  function ShortText(ty: Type, v: Value): string
    requires HasType(v, ty)
  {
    match ty
    case TInt => if Wrapped(v.n) then NatText(v.n + TWO64) else IntText(v.n)
    case TBool => BoolText(v.b)
    case TString => ['"'] + v.text + ['"']
    case TStruct(name, fs) => Braced(name, ShortFields(fs, v.values))
  }

  function ShortFields(fs: Fields, vs: Values): string
    requires HaveTypes(vs, fs)
  {
    match fs
    case NoFields => ""
    case Field(key, ty, NoFields) => Labelled(key, ShortText(ty, vs.head))
    case Field(key, ty, rest) => Labelled(key, ShortText(ty, vs.head)) + [';'] + ShortFields(rest, vs.tail)
  }

  lemma ShortIntMatches(n: int)
    requires InRange64(n)
    ensures var s := if Wrapped(n) then NatText(n + TWO64) else IntText(n);
            && Neutral(s) && IsNumeral(s) && Wrap64(NumeralVal(s)) == n
            && |s| + (if Wrapped(n) then 1 else 0) == |IntText(n)|
  {
    if Wrapped(n) {
      var m := n + TWO64;
      NatTextReadsBack(m);
      assert IntText(m) == NatText(m);
      IntTextNeutral(m);
      IntTextReadsBack(m);
      Wrap64Shift(n, 1);
      Pow10Nineteen();
      NatTextLength(m, 18);
      NatTextLength(m, 19);
      NatTextLength(-n, 18);
      NatTextLength(-n, 19);
    } else {
      IntTextNeutral(n);
      IntTextReadsBack(n);
    }
  }

  /** The short text is read as the value, and saves one byte for each wrapped leaf. */
  lemma {:induction false} ShortTextMatches(ty: Type, v: Value)
    requires WellNamed(ty) && HasType(v, ty) && StringsNeutral(v)
    ensures Neutral(ShortText(ty, v)) && Matches(ty, ShortText(ty, v), v)
    ensures |ShortText(ty, v)| + WrappedLeaves(v) == |Serialized(ty, v)|
    decreases ty
  {
    hide Neutral, Wrapped, MatchesFields, IsIdentifier;
    match ty
    case TInt => ShortIntMatches(v.n);
    case TBool =>
      SerializedNeutral(ty, v);
    case TString =>
      QuotedNeutral(v.text);
    case TStruct(name, fs) =>
      ShortFieldsMatch(fs, v.values);
      BracedNeutral(name, ShortFields(fs, v.values));
      BracedMatches(ty, ShortFields(fs, v.values), ShortText(ty, v), v);
  }

  lemma {:induction false} ShortFieldsMatch(fs: Fields, vs: Values)
    requires WellNamedFields(fs) && HaveTypes(vs, fs) && AllStringsNeutral(vs)
    ensures Balanced(ShortFields(fs, vs)) && MatchesFields(fs, ShortFields(fs, vs), vs)
    ensures |ShortFields(fs, vs)| + AllWrappedLeaves(vs) == |SerializedFields(fs, vs)|
    decreases fs
  {
    hide Balanced, Neutral, ShortText, Serialized, SerializedFields, Matches, IsIdentifier;
    SerializedFieldsForm(fs, vs);
    if fs.NoFields? {
      PlainIsNeutral("");
      NeutralIsBalanced("");
    } else {
      var text := ShortText(fs.ty, vs.head);
      ShortTextMatches(fs.ty, vs.head);
      LabelledBalanced(fs.key, text);
      if fs.rest.Field? {
        ShortFieldsMatch(fs.rest, vs.tail);
        JoinedBalanced(Labelled(fs.key, text), ShortFields(fs.rest, vs.tail));
      }
    }
  }

  // ---------------------------------------------------------------------------
  // Exactly when the printer's text is the shortest
  // ---------------------------------------------------------------------------

  /** A text that is read as `v` takes at least this many bytes. */
  lemma ConsumesAtLeast(ty: Type, s: string, v: Value)
    requires ty.TStruct? && HasType(v, ty) && Deserialized(ty, s) == Ok(v)
    ensures Consumed(ty, s) >= |Serialized(ty, v)| - WrappedLeaves(v)
  {
    hide Deserialized, Serialized, Consumed, WrappedLeaves, OverlongIn;
    ShortestForm(ty, s);
    OverlongGivesWrapped(ty, s);
  }

  /** And one text takes exactly as many: the minimum is the printed length less the wrapped leaves. */
  lemma MinimumIsReached(ty: Type, v: Value)
    requires ty.TStruct? && WellNamed(ty) && HasType(v, ty) && StringsNeutral(v)
    ensures var s := ShortText(ty, v);
            Deserialized(ty, s) == Ok(v) && Consumed(ty, s) == |s| == |Serialized(ty, v)| - WrappedLeaves(v)
  {
    hide Deserialized, DeserializedFields, Serialized, Consumed, WrappedLeaves, ShortText, Matches, MatchesFields;
    hide Neutral, WellNamed;
    var s := ShortText(ty, v);
    ShortTextMatches(ty, v);
    Acceptance(ty, s, v);
    ConsumesAtLeast(ty, s, v);
    var body := ConsumedBody(ty, s);
  }

  /** No text that is read as `v` takes fewer bytes than the printed one. */
  ghost predicate PrintedIsShortest(ty: Type, v: Value)
    requires ty.TStruct? && HasType(v, ty)
  {
    forall s | Deserialized(ty, s) == Ok(v) :: |Serialized(ty, v)| <= Consumed(ty, s)
  }

  /** The printed text is the shortest if and only if no integer of the value is a wrapped one. */
  lemma ShortestFormExactly(ty: Type, v: Value)
    requires ty.TStruct? && WellNamed(ty) && HasType(v, ty) && StringsNeutral(v)
    ensures PrintedIsShortest(ty, v) <==> WrappedLeaves(v) == 0
  {
    hide Deserialized, Serialized, Consumed, WrappedLeaves, ShortText, WellNamed, StringsNeutral;
    MinimumIsReached(ty, v);
    forall s | Deserialized(ty, s) == Ok(v)
      ensures Consumed(ty, s) >= |Serialized(ty, v)| - WrappedLeaves(v)
    {
      ConsumesAtLeast(ty, s, v);
    }
  }

  const COUNTER: Type := TStruct("T", Field("n", TInt, NoFields))

  /** A struct whose printed text is not the shortest: `T{n=9223372036854775808}` is a byte shorter. */
  lemma ShorterStructText()
    ensures var v := VStruct(Cons(VInt(MIN64), NoValues));
            var s := Braced("T", Labelled("n", NatText(0x8000_0000_0000_0000)));
            HasType(v, COUNTER) && Deserialized(COUNTER, s) == Ok(v) && |s| + 1 == |Serialized(COUNTER, v)|
  {
    var v := VStruct(Cons(VInt(MIN64), NoValues));
    assert WellNamed(COUNTER);
    MinimumIsReached(COUNTER, v);
    assert ShortText(COUNTER, v) == Braced("T", ShortFields(COUNTER.fields, v.values));
    assert WrappedLeaves(v) == 1;
  }
}
