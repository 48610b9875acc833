/**
 The wire grammar, stated without reference to the scanner or the cursor, and exact acceptance: the
 generated parser returns a value on precisely the texts of the grammar, and traps on every other.
 */
module SerdeGrammar {
  import opened Decimal
  import opened KiraStrings
  import opened Outcomes
  import opened SerdeCodec
  import opened SerdeScanner
  import opened SerdeSchema

  /**
   `s` is a text of type `ty` that denotes `v`.  A struct's text is `Name{...}` followed by anything at
   all: nothing after the closing brace is ever read.
   */
  ghost predicate Matches(ty: Type, s: string, v: Value) {
    match ty
    case TInt => IsNumeral(s) && v == VInt(Wrap64(NumeralVal(s)))
    case TBool => (s == "true" && v == VBool(true)) || (s == "false" && v == VBool(false))
    case TString => v.VString? && s == ['"'] + v.text + ['"']
    case TStruct(name, fs) =>
      v.VStruct? && exists body :: Braced(name, body) <= s && MatchesFields(fs, body, v.values)
  }

  /** `body` is `key=VALUE` for each field in declaration order, `;` between, every VALUE neutral. */
  ghost predicate MatchesFields(fs: Fields, body: string, vs: Values) {
    match fs
    case NoFields => body == "" && vs == NoValues
    case Field(key, ty, NoFields) =>
      vs.Cons? && vs.tail == NoValues &&
      exists val :: body == Labelled(key, val) && Neutral(val) && Matches(ty, val, vs.head)
    case Field(key, ty, rest) =>
      vs.Cons? &&
      exists val, more :: body == Labelled(key, val) + [';'] + more && Neutral(val) &&
                          Matches(ty, val, vs.head) && MatchesFields(rest, more, vs.tail)
  }

  function Braced(name: string, body: string): string {
    name + ['{'] + body + ['}']
  }

  function Labelled(key: string, val: string): string {
    key + ['='] + val
  }

  lemma IdentifierIsPlain(s: string)
    requires IsIdentifier(s)
    ensures '{' !in s && '}' !in s && ';' !in s && '=' !in s
  {
  }

  // ---------------------------------------------------------------------------
  // Every text of the grammar is accepted
  // ---------------------------------------------------------------------------

  lemma CarvedFrom(key: string, val: string, rest: string)
    requires '=' !in key && Neutral(val) && rest != "" && IsTerminator(rest[0])
    ensures Carved(key, Labelled(key, val) + rest) == Ok((val, rest))
  {
    hide ScanLen, Find;
    var s := Labelled(key, val) + rest;
    assert s == key + ['='] + (val + rest);
    FindAfter(key, '=', val + rest);
    assert s[..|key|] == key;
    assert s[|key| + 1..] == val + rest;
    ScanPassesNeutral(val, rest);
    assert (val + rest)[..|val|] == val && (val + rest)[|val|..] == rest;
  }

  lemma {:induction false} AcceptsMatching(ty: Type, s: string, v: Value)
    requires WellNamed(ty) && Matches(ty, s, v)
    ensures Deserialized(ty, s) == Ok(v)
    decreases ty
  {
    match ty
    case TInt =>
    case TBool =>
    case TString =>
      assert s[1..|s| - 1] == v.text;
    case TStruct(name, fs) =>
      var body :| Braced(name, body) <= s && MatchesFields(fs, body, v.values);
      IdentifierIsPlain(name);
      FindsBrace(name, body, s);
      AcceptsMatchingFields(fs, body, v.values, AfterBody(name, body, s));
  }

  /** The text from the closing brace on. */
  function AfterBody(name: string, body: string, s: string): string
    requires Braced(name, body) <= s
  {
    ['}'] + s[|Braced(name, body)|..]
  }

  lemma FindsBrace(name: string, body: string, s: string)
    requires '{' !in name && Braced(name, body) <= s
    ensures Find(s, '{') == |name| && s[..|name|] == name
    ensures s[|name| + 1..] == body + AfterBody(name, body, s)
  {
    hide Find;
    var rest := body + AfterBody(name, body, s);
    assert s == Braced(name, body) + s[|Braced(name, body)|..];
    assert s == name + ['{'] + rest;
    FindAfter(name, '{', rest);
  }

  lemma {:induction false} AcceptsMatchingFields(fs: Fields, body: string, vs: Values, tail: string)
    requires WellNamedFields(fs) && MatchesFields(fs, body, vs)
    requires StartsWith('}', tail)
    ensures DeserializedFields(fs, body + tail) == Ok((vs, tail))
    decreases fs
  {
    hide Deserialized, DeserializedFields, Carved, Neutral, FieldRead, Matches, Labelled;
    if fs.NoFields? {
      assert body + tail == tail;
      ReadsNone(tail);
    } else {
      IdentifierIsPlain(fs.key);
      if fs.rest.NoFields? {
        var val :| body == Labelled(fs.key, val) && Neutral(val) && Matches(fs.ty, val, vs.head);
        AcceptsMatching(fs.ty, val, vs.head);
        ReadsLast(fs, val, vs, tail);
      } else {
        var val, more :| body == Labelled(fs.key, val) + [';'] + more && Neutral(val) &&
                         Matches(fs.ty, val, vs.head) && MatchesFields(fs.rest, more, vs.tail);
        AcceptsMatching(fs.ty, val, vs.head);
        AcceptsMatchingFields(fs.rest, more, vs.tail, tail);
        ReadsOneThenRest(fs, val, more + tail, vs, tail);
        Rejoin(Labelled(fs.key, val), more, tail);
      }
    }
  }

  lemma FieldReadFrom(key: string, ty: Type, val: string, rest: string, v: Value)
    requires '=' !in key && Neutral(val) && rest != "" && IsTerminator(rest[0])
    requires Deserialized(ty, val) == Ok(v)
    ensures FieldRead(key, ty, Labelled(key, val) + rest) == Ok((v, rest))
  {
    hide Deserialized, Carved, Neutral;
    CarvedFrom(key, val, rest);
  }

  lemma ReadsNone(tail: string)
    ensures DeserializedFields(NoFields, tail) == Ok((NoValues, tail))
  {
  }

  lemma ReadsLast(fs: Fields, val: string, vs: Values, tail: string)
    requires fs.Field? && fs.rest.NoFields? && vs.Cons? && vs.tail.NoValues? && '=' !in fs.key && Neutral(val)
    requires Deserialized(fs.ty, val) == Ok(vs.head) && StartsWith('}', tail)
    ensures DeserializedFields(fs, Labelled(fs.key, val) + tail) == Ok((vs, tail))
  {
    hide Deserialized, Carved, Neutral, FieldRead;
    FieldReadFrom(fs.key, fs.ty, val, tail, vs.head);
  }

  lemma Rejoin(a: string, b: string, c: string)
    ensures (a + [';'] + b) + c == a + ([';'] + (b + c))
  {
  }

  lemma ReadsOneThenRest(fs: Fields, val: string, rest: string, vs: Values, tail: string)
    requires fs.Field? && fs.rest.Field? && vs.Cons? && '=' !in fs.key && Neutral(val)
    requires Deserialized(fs.ty, val) == Ok(vs.head)
    requires DeserializedFields(fs.rest, rest) == Ok((vs.tail, tail))
    ensures DeserializedFields(fs, Labelled(fs.key, val) + ([';'] + rest)) == Ok((vs, tail))
  {
    hide Deserialized, Carved, Neutral, FieldRead;
    var after := [';'] + rest;
    FieldReadFrom(fs.key, fs.ty, val, after, vs.head);
    assert after[1..] == rest;
  }

  // ---------------------------------------------------------------------------
  // Every accepted text is one of the grammar
  // ---------------------------------------------------------------------------

  lemma CarvedInverse(key: string, s: string)
    requires Carved(key, s).Ok?
    ensures var (val, rest) := Carved(key, s).value;
            s == Labelled(key, val) + rest && (rest != "" ==> IsTerminator(rest[0]) && Neutral(val))
  {
    hide ScanLen, Find;
    var eq := Find(s, '=');
    FindFirst(s, '=');
    var text := s[eq + 1..];
    var end := ScanLen(text, 0);
    assert s == s[..eq] + ['='] + text;
    assert text == text[..end] + text[end..];
    if end < |text| {
      ScanStops(text, 0);
      ScanCarves(text);
    }
  }

  lemma {:induction false} MatchesAccepted(ty: Type, s: string)
    requires Deserialized(ty, s).Ok?
    ensures Matches(ty, s, Deserialized(ty, s).value)
    decreases ty
  {
    match ty
    case TInt =>
    case TBool =>
    case TString =>
      assert s == [s[0]] + s[1..|s| - 1] + [s[|s| - 1]];
    case TStruct(name, fs) =>
      var brace := Find(s, '{');
      var text := s[brace + 1..];
      var (vs, rest) := DeserializedFields(fs, text).value;
      var body := MatchesAcceptedFields(fs, text);
      SplitAtBrace(s, name, body, rest);
  }

  lemma SplitAtBrace(s: string, name: string, body: string, rest: string)
    requires var brace := Find(s, '{');
             brace >= 0 && s[..brace] == name && s[brace + 1..] == body + rest && StartsWith('}', rest)
    ensures Braced(name, body) <= s
  {
    hide Find;
    var brace := Find(s, '{');
    FindFirst(s, '{');
    assert s == name + ['{'] + (body + rest);
    assert rest == ['}'] + rest[1..];
    assert s == Braced(name, body) + rest[1..];
  }

  /** What a field list that was read leaves unread, and the part of the grammar that it consumed. */
  lemma {:induction false} MatchesAcceptedFields(fs: Fields, s: string) returns (body: string)
    requires DeserializedFields(fs, s).Ok?
    ensures s == body + DeserializedFields(fs, s).value.1
    ensures DeserializedFields(fs, s).value.1 != "" ==> MatchesFields(fs, body, DeserializedFields(fs, s).value.0)
    decreases fs
  {
    hide Carved, Deserialized, Neutral, Matches;
    if fs.NoFields? {
      body := "";
    } else {
      var (v, after) := FieldRead(fs.key, fs.ty, s).value;
      var (val, _) := Carved(fs.key, s).value;
      CarvedInverse(fs.key, s);
      MatchesAccepted(fs.ty, val);
      if fs.rest.NoFields? {
        body := Labelled(fs.key, val);
      } else {
        var more := MatchesAcceptedFields(fs.rest, after[1..]);
        body := Labelled(fs.key, val) + [';'] + more;
        assert after == [';'] + after[1..];
        Rejoin(Labelled(fs.key, val), more, DeserializedFields(fs, s).value.1);
      }
    }
  }

  /** Exact acceptance: the parser returns `v` if and only if the text is in the grammar and denotes `v`. */
  lemma Acceptance(ty: Type, s: string, v: Value)
    requires WellNamed(ty)
    ensures Deserialized(ty, s) == Ok(v) <==> Matches(ty, s, v)
  {
    if Matches(ty, s, v) {
      AcceptsMatching(ty, s, v);
    }
    if Deserialized(ty, s) == Ok(v) {
      MatchesAccepted(ty, s);
    }
  }
}
