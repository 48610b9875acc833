/** What the generated printer writes, byte by byte, whether or not it can be read back. */
module SerdePrinted {
  import opened Decimal
  import opened Outcomes
  import opened SerdeCodec
  import opened SerdeSchema
  import opened SerdeTheorems

  /** The parts with `;` between them. */
  function Listed(parts: seq<string>): string {
    if parts == [] then ""
    else if |parts| == 1 then parts[0]
    else parts[0] + [';'] + Listed(parts[1..])
  }

  /** `text` is the documented form of the value: a String is copied whole, whatever it holds. */
  ghost predicate Prints(ty: Type, v: Value, text: string)
    requires HasType(v, ty)
  {
    match ty
    case TInt => text == IntText(v.n)
    case TBool => text == if v.b then ['t', 'r', 'u', 'e'] else ['f', 'a', 'l', 's', 'e']
    case TString =>
      |text| == |v.text| + 2 && text[0] == '"' && text[|text| - 1] == '"' && text[1..|text| - 1] == v.text
    case TStruct(name, fs) =>
      exists parts :: PrintsParts(fs, v.values, parts) && text == name + ['{'] + Listed(parts) + ['}']
  }

  /** The parts are `key=VALUE` for each field, in order. */
  ghost predicate PrintsParts(fs: Fields, vs: Values, parts: seq<string>)
    requires HaveTypes(vs, fs)
  {
    match fs
    case NoFields => parts == []
    case Field(key, ty, rest) =>
      parts != [] && PrintsParts(rest, vs.tail, parts[1..]) &&
      exists val :: Prints(ty, vs.head, val) && parts[0] == key + ['='] + val
  }

  /** The printer writes the documented form of every value, Strings that cannot be read back included. */
  lemma {:induction false} PrintedForm(ty: Type, v: Value, text: string)
    requires HasType(v, ty)
    ensures Prints(ty, v, text) <==> text == Serialized(ty, v)
    decreases ty
  {
    match ty
    case TInt =>
    case TBool =>
    case TString => QuotedText(v.text, text);
    case TStruct(name, fs) =>
      var printed := PartsPrinted(fs, v.values);
      if Prints(ty, v, text) {
        var parts :| PrintsParts(fs, v.values, parts) && text == name + ['{'] + Listed(parts) + ['}'];
        PartsForm(fs, v.values, parts);
      }
  }

  lemma QuotedText(inner: string, text: string)
    ensures |text| == |inner| + 2 && text[0] == '"' && text[|text| - 1] == '"' && text[1..|text| - 1] == inner
            <==> text == "\"" + inner + "\""
  {
    if |text| == |inner| + 2 && text[0] == '"' && text[|text| - 1] == '"' {
      assert text == [text[0]] + text[1..|text| - 1] + [text[|text| - 1]];
    }
  }

  lemma {:induction false} PartsPrinted(fs: Fields, vs: Values) returns (parts: seq<string>)
    requires HaveTypes(vs, fs)
    ensures PrintsParts(fs, vs, parts) && Listed(parts) == SerializedFields(fs, vs)
    decreases fs
  {
    parts := [];
    if fs.Field? {
      PrintedForm(fs.ty, vs.head, Serialized(fs.ty, vs.head));
      var more := PartsPrinted(fs.rest, vs.tail);
      parts := [fs.key + ['='] + Serialized(fs.ty, vs.head)] + more;
      assert parts[1..] == more;
      assert fs.rest.NoFields? <==> more == [];
    }
  }

  lemma {:induction false} PartsForm(fs: Fields, vs: Values, parts: seq<string>)
    requires HaveTypes(vs, fs) && PrintsParts(fs, vs, parts)
    ensures Listed(parts) == SerializedFields(fs, vs)
    decreases fs
  {
    if fs.Field? {
      var val :| Prints(fs.ty, vs.head, val) && parts[0] == fs.key + ['='] + val;
      PrintedForm(fs.ty, vs.head, val);
      PartsForm(fs.rest, vs.tail, parts[1..]);
      assert fs.rest.NoFields? <==> parts[1..] == [];
    }
  }

  // ---------------------------------------------------------------------------
  // The texts that the repository's own corpus fixes
  // ---------------------------------------------------------------------------

  const POINT: Type := TStruct("DsxPoint", Field("x", TInt, Field("y", TInt, NoFields)))

  function Point(x: int, y: int): Value {
    VStruct(Cons(VInt(x), Cons(VInt(y), NoValues)))
  }

  lemma PointText(x: int, y: int)
    requires InRange64(x) && InRange64(y)
    ensures HasType(Point(x, y), POINT)
    ensures Serialized(POINT, Point(x, y)) == "DsxPoint{x=" + IntText(x) + ";y=" + IntText(y) + "}"
  {
    hide IntText;
    var last, lastValue := Field("y", TInt, NoFields), Cons(VInt(y), NoValues);
    assert HasType(VInt(y), TInt) && HaveTypes(lastValue, last);
    assert HasType(VInt(x), TInt) && HaveTypes(Cons(VInt(x), lastValue), Field("x", TInt, last));
    assert Serialized(TInt, VInt(y)) == IntText(y) && Serialized(TInt, VInt(x)) == IntText(x);
    assert SerializedFields(last, lastValue) == "y=" + IntText(y);
    assert SerializedFields(Field("x", TInt, last), Cons(VInt(x), lastValue)) ==
           "x=" + IntText(x) + ";" + ("y=" + IntText(y));
  }

  /** A text that the tests fix, both ways. */
  lemma CorpusText()
    ensures var text := "DsxPoint{x=" + "-7" + ";y=" + "-100" + "}";
            && HasType(Point(-7, -100), POINT) && Serialized(POINT, Point(-7, -100)) == text
            && Deserialized(POINT, text) == Ok(Point(-7, -100))
  {
    PointText(-7, -100);
    PrintedNumbers();
    PointReadsBack(-7, -100);
    hide *;
  }

  lemma PrintedNumbers()
    ensures IntText(-7) == "-7" && IntText(-100) == "-100"
  {
    assert NatText(7) == "7" && NatText(1) == "1";
    DigitAppended(1, "1", 0, '0');
    DigitAppended(10, "10", 0, '0');
  }

  lemma PointReadsBack(x: int, y: int)
    requires HasType(Point(x, y), POINT)
    ensures Deserialized(POINT, Serialized(POINT, Point(x, y))) == Ok(Point(x, y))
  {
    var v := Point(x, y);
    assert AllStringsNeutral(NoValues) && StringsNeutral(VInt(x)) && StringsNeutral(VInt(y));
    assert AllStringsNeutral(Cons(VInt(y), NoValues));
    RoundTrip(POINT, v, "");
    assert Serialized(POINT, v) + "" == Serialized(POINT, v);
  }
}
