/** What the two generated functions guarantee together, for every derivable struct type. */
module SerdeTheorems {
  import opened Decimal
  import opened Outcomes
  import opened SerdeCodec
  import opened SerdeGrammar
  import opened SerdeScanner
  import opened SerdeSchema

  /** Every String anywhere inside the value is neutral. */
  ghost predicate StringsNeutral(v: Value) {
    match v
    case VInt(_) => true
    case VBool(_) => true
    case VString(text) => Neutral(text)
    case VStruct(vs) => AllStringsNeutral(vs)
  }

  ghost predicate AllStringsNeutral(vs: Values) {
    vs.Cons? ==> StringsNeutral(vs.head) && AllStringsNeutral(vs.tail)
  }

  // ---------------------------------------------------------------------------
  // Serialized text is neutral, and is in the grammar
  // ---------------------------------------------------------------------------

  lemma QuotedNeutral(text: string)
    ensures Neutral(['"'] + text + ['"']) <==> Neutral(text)
  {
    var q := ['"'] + text + ['"'];
    DepthConcat(['"'] + text, ['"']);
    DepthConcat(['"'], text);
    forall i | 0 <= i < |text|
      ensures q[i + 1] == text[i] && Depth(q[..i + 1]) == Depth(text[..i])
    {
      assert q[..i + 1] == ['"'] + text[..i];
      DepthConcat(['"'], text[..i]);
    }
    if Neutral(q) {
      forall i | 0 <= i < |text| && IsTerminator(text[i])
        ensures Depth(text[..i]) > 0
      {
        assert IsTerminator(q[i + 1]);
      }
    }
    if Neutral(text) {
      forall i | 0 <= i < |q| && IsTerminator(q[i])
        ensures Depth(q[..i]) > 0
      {
        assert 0 <= i - 1 < |text| && IsTerminator(text[i - 1]);
      }
    }
  }

  lemma IntTextNeutral(n: int)
    ensures Neutral(IntText(n))
  {
    IntTextReadsBack(n);
    var s := IntText(n);
    assert forall i | 0 <= i < |s| :: s[i] == '-' || IsDigit(s[i]) by {
      if s[0] == '-' {
        forall i | 1 <= i < |s| ensures IsDigit(s[i]) {
          assert IsDigit(s[1..][i - 1]);
        }
      }
    }
    PlainIsNeutral(s);
  }

  lemma BracedNeutral(name: string, body: string)
    requires IsIdentifier(name) && Balanced(body)
    ensures Neutral(Braced(name, body))
  {
    IdentifierIsPlain(name);
    PlainIsNeutral(name);
    BracedIsNeutral(body);
    NeutralConcat(name, "{" + body + "}");
    assert Braced(name, body) == name + ("{" + body + "}");
  }

  lemma LabelledBalanced(key: string, val: string)
    requires IsIdentifier(key) && Neutral(val)
    ensures Balanced(Labelled(key, val))
  {
    IdentifierIsPlain(key);
    PlainIsNeutral(key);
    PlainIsNeutral(['=']);
    NeutralConcat(key, ['=']);
    NeutralConcat(key + ['='], val);
    NeutralIsBalanced(Labelled(key, val));
  }

  lemma JoinedBalanced(a: string, b: string)
    requires Balanced(a) && Balanced(b)
    ensures Balanced(a + [';'] + b)
  {
    assert Balanced([';']) by {
      assert [';'][..0] == [] && [';'][..1] == [';'];
    }
    BalancedConcat(a, [';']);
    BalancedConcat(a + [';'], b);
  }

  lemma SerializedFieldsForm(fs: Fields, vs: Values)
    requires HaveTypes(vs, fs)
    ensures fs.NoFields? ==> SerializedFields(fs, vs) == ""
    ensures fs.Field? && fs.rest.NoFields? ==> SerializedFields(fs, vs) == Labelled(fs.key, Serialized(fs.ty, vs.head))
    ensures fs.Field? && fs.rest.Field? ==>
              SerializedFields(fs, vs) ==
              Labelled(fs.key, Serialized(fs.ty, vs.head)) + [';'] + SerializedFields(fs.rest, vs.tail)
  {
  }

  lemma {:induction false} SerializedNeutral(ty: Type, v: Value)
    requires WellNamed(ty) && HasType(v, ty) && StringsNeutral(v)
    ensures Neutral(Serialized(ty, v))
    decreases ty
  {
    match ty
    case TInt => IntTextNeutral(v.n);
    case TBool => PlainIsNeutral(BoolText(v.b));
    case TString => QuotedNeutral(v.text);
    case TStruct(name, fs) =>
      SerializedFieldsBalanced(fs, v.values);
      BracedNeutral(name, SerializedFields(fs, v.values));
  }

  lemma {:induction false} SerializedFieldsBalanced(fs: Fields, vs: Values)
    requires WellNamedFields(fs) && HaveTypes(vs, fs) && AllStringsNeutral(vs)
    ensures Balanced(SerializedFields(fs, vs))
    decreases fs
  {
    hide Balanced, Neutral, Serialized, SerializedFields, Labelled, IsIdentifier;
    SerializedFieldsForm(fs, vs);
    if fs.NoFields? {
      PlainIsNeutral("");
      NeutralIsBalanced("");
    } else {
      var text := Serialized(fs.ty, vs.head);
      SerializedNeutral(fs.ty, vs.head);
      LabelledBalanced(fs.key, text);
      if fs.rest.Field? {
        SerializedFieldsBalanced(fs.rest, vs.tail);
        JoinedBalanced(Labelled(fs.key, text), SerializedFields(fs.rest, vs.tail));
      }
    }
  }

  lemma {:induction false} SerializedMatches(ty: Type, v: Value, t: string)
    requires WellNamed(ty) && HasType(v, ty) && StringsNeutral(v)
    requires ty.TStruct? || t == ""
    ensures Matches(ty, Serialized(ty, v) + t, v)
    decreases ty
  {
    hide MatchesFields, Neutral, SerializedFields;
    assert t == "" ==> Serialized(ty, v) + t == Serialized(ty, v);
    match ty
    case TInt => IntTextReadsBack(v.n);
    case TBool =>
    case TString =>
    case TStruct(name, fs) =>
      var body := SerializedFields(fs, v.values);
      SerializedFieldsMatch(fs, v.values);
      assert Serialized(ty, v) == Braced(name, body);
      assert Braced(name, body) <= Serialized(ty, v) + t;
  }

  lemma {:induction false} SerializedFieldsMatch(fs: Fields, vs: Values)
    requires WellNamedFields(fs) && HaveTypes(vs, fs) && AllStringsNeutral(vs)
    ensures MatchesFields(fs, SerializedFields(fs, vs), vs)
    decreases fs
  {
    hide Neutral, Serialized, SerializedFields, Labelled, IsIdentifier, Matches;
    SerializedFieldsForm(fs, vs);
    if fs.Field? {
      var text := Serialized(fs.ty, vs.head);
      SerializedNeutral(fs.ty, vs.head);
      SerializedMatches(fs.ty, vs.head, "");
      assert text + "" == text;
      if fs.rest.Field? {
        SerializedFieldsMatch(fs.rest, vs.tail);
      }
    }
  }

  // ---------------------------------------------------------------------------
  // Whatever a text of the grammar denotes is well-typed and neutral
  // ---------------------------------------------------------------------------

  lemma {:induction false} DenotesNeutral(ty: Type, s: string, v: Value)
    requires Matches(ty, s, v) && (ty.TStruct? || Neutral(s))
    ensures HasType(v, ty) && StringsNeutral(v)
    decreases ty
  {
    match ty
    case TInt =>
    case TBool =>
    case TString => QuotedNeutral(v.text);
    case TStruct(name, fs) =>
      var body :| Braced(name, body) <= s && MatchesFields(fs, body, v.values);
      FieldsDenoteNeutral(fs, body, v.values);
  }

  lemma {:induction false} FieldsDenoteNeutral(fs: Fields, body: string, vs: Values)
    requires MatchesFields(fs, body, vs)
    ensures HaveTypes(vs, fs) && AllStringsNeutral(vs)
    decreases fs
  {
    hide Neutral, Matches, Labelled;
    if fs.Field? {
      if fs.rest.NoFields? {
        var val :| body == Labelled(fs.key, val) && Neutral(val) && Matches(fs.ty, val, vs.head);
        DenotesNeutral(fs.ty, val, vs.head);
      } else {
        var val, more :| body == Labelled(fs.key, val) + [';'] + more && Neutral(val) &&
                         Matches(fs.ty, val, vs.head) && MatchesFields(fs.rest, more, vs.tail);
        DenotesNeutral(fs.ty, val, vs.head);
        FieldsDenoteNeutral(fs.rest, more, vs.tail);
      }
    }
  }

  // ---------------------------------------------------------------------------
  // The theorems
  // ---------------------------------------------------------------------------

  /**
   The round-trip law, exactly: a value comes back from its own text, whatever text follows, if and only
   if every String inside it is neutral.  On every other value the parser traps or returns another value.
   */
  lemma RoundTrip(ty: Type, v: Value, t: string)
    requires ty.TStruct? && WellNamed(ty) && HasType(v, ty)
    ensures Deserialized(ty, Serialized(ty, v) + t) == Ok(v) <==> StringsNeutral(v)
  {
    var s := Serialized(ty, v) + t;
    Acceptance(ty, s, v);
    if StringsNeutral(v) {
      SerializedMatches(ty, v, t);
    }
    if Matches(ty, s, v) {
      DenotesNeutral(ty, s, v);
    }
  }

  /** Whatever text a value was read from, canonical or not, it survives being written and read again. */
  lemma Normalisation(ty: Type, s: string)
    requires ty.TStruct? && WellNamed(ty) && Deserialized(ty, s).Ok?
    ensures var v := Deserialized(ty, s).value;
            HasType(v, ty) && StringsNeutral(v) && Deserialized(ty, Serialized(ty, v)) == Ok(v)
  {
    var v := Deserialized(ty, s).value;
    Acceptance(ty, s, v);
    DenotesNeutral(ty, s, v);
    RoundTrip(ty, v, "");
    assert Serialized(ty, v) + "" == Serialized(ty, v);
  }

  /** Encodings of one type form a prefix code: different values have different texts, none extending another. */
  lemma PrefixFree(ty: Type, v: Value, w: Value, t: string)
    requires ty.TStruct? && WellNamed(ty) && HasType(v, ty) && HasType(w, ty)
    requires StringsNeutral(v) && StringsNeutral(w)
    ensures Serialized(ty, v) + t == Serialized(ty, w) <==> v == w && t == ""
  {
    RoundTrip(ty, v, t);
    RoundTrip(ty, w, "");
    assert Serialized(ty, w) + "" == Serialized(ty, w);
    if Serialized(ty, v) + t == Serialized(ty, w) {
      assert v == w;
      assert |t| == 0;
    }
  }
}
