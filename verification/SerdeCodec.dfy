/**
 The code that `@Derive(Serializable)` and `@Derive(Deserializable)` generate, for every struct type.
 Each method is the generated code with its `out` string or its `pos` cursor; beside it stands the
 function it computes.
 */
module SerdeCodec {
  import opened Decimal
  import opened KiraStrings
  import opened Outcomes
  import opened SerdeScanner
  import opened SerdeSchema

  // ---------------------------------------------------------------------------
  // Serialization
  // ---------------------------------------------------------------------------

  function BoolText(b: bool): string {
    if b then "true" else "false"
  }

  function Serialized(ty: Type, v: Value): string
    requires HasType(v, ty)
  {
    match ty
    case TInt => IntText(v.n)
    case TBool => BoolText(v.b)
    case TString => "\"" + v.text + "\""
    case TStruct(name, fs) => name + "{" + SerializedFields(fs, v.values) + "}"
  }

  /** The text between the braces: `key=VALUE` for each field, separated by `;`. */
  function SerializedFields(fs: Fields, vs: Values): string
    requires HaveTypes(vs, fs)
  {
    match fs
    case NoFields => ""
    case Field(key, ty, NoFields) => key + "=" + Serialized(ty, vs.head)
    case Field(key, ty, rest) =>
      key + "=" + Serialized(ty, vs.head) + ";" + SerializedFields(rest, vs.tail)
  }

  method Serialize(ty: Type, v: Value) returns (out: string)
    requires HasType(v, ty) && ty.TStruct?
    ensures out == Serialized(ty, v)
    decreases ty, 1
  {
    out := ty.name;
    out := out + "{";
    out := SerializeFields(ty.fields, v.values, 0, out);
    out := out + "}";
    assert out == ty.name + "{" + SerializedFields(ty.fields, v.values) + "}";
  }

  /** The statements for the fields `fs`, the first of which has index `idx`: each appends to `out`. */
  method SerializeFields(fs: Fields, vs: Values, idx: nat, prefix: string) returns (out: string)
    requires HaveTypes(vs, fs)
    ensures out == prefix + Separator(idx, fs) + SerializedFields(fs, vs)
    decreases fs, 1
  {
    out := prefix;
    if fs.Field? {
      var sep := "";
      if idx != 0 {
        sep := ";";
      }
      var text := SerializeValue(fs.ty, vs.head);
      out := out + sep + fs.key + "=" + text;
      out := SerializeFields(fs.rest, vs.tail, idx + 1, out);
      SerializedFieldsSplit(fs, vs, prefix, sep, idx);
    } else {
      assert prefix == prefix + "" + "";
    }
  }

  method SerializeValue(ty: Type, v: Value) returns (text: string)
    requires HasType(v, ty)
    ensures text == Serialized(ty, v)
    decreases ty, 2
  {
    match ty {
      case TInt => text := IntText(v.n);
      case TBool => text := BoolText(v.b);
      case TString => text := "\"" + v.text + "\"";
      case TStruct(_, _) => text := Serialize(ty, v);
    }
  }

  function Separator(idx: nat, fs: Fields): string {
    if idx != 0 && fs.Field? then ";" else ""
  }

  lemma SerializedFieldsSplit(fs: Fields, vs: Values, prefix: string, sep: string, idx: nat)
    requires HaveTypes(vs, fs) && fs.Field? && sep == Separator(idx, fs)
    ensures var text := Serialized(fs.ty, vs.head);
            prefix + sep + fs.key + "=" + text + Separator(idx + 1, fs.rest) + SerializedFields(fs.rest, vs.tail)
            == prefix + sep + SerializedFields(fs, vs)
  {
  }

  // ---------------------------------------------------------------------------
  // Deserialization
  // ---------------------------------------------------------------------------

  function ParsedInt(s: string): Outcome<Value> {
    if IsNumeral(s) then Ok(VInt(Wrap64(NumeralVal(s)))) else Trap
  }

  function ParsedBool(s: string): Outcome<Value> {
    if s == "true" then Ok(VBool(true)) else if s == "false" then Ok(VBool(false)) else Trap
  }

  function Unquoted(s: string): Outcome<Value> {
    if |s| < 2 || s[0] != '"' || s[|s| - 1] != '"' then Trap else Ok(VString(s[1..|s| - 1]))
  }

  /** The value text carved out after `key=` at the front of `s`, and the text from its terminator on. */
  function Carved(key: string, s: string): Outcome<(string, string)> {
    var eq := Find(s, '=');
    if eq == -1 || s[..eq] != key then Trap
    else
      var text := s[eq + 1..];
      var end := ScanLen(text, 0);
      Ok((text[..end], text[end..]))
  }

  /** What the converter of a field type makes of a value text. */
  function Deserialized(ty: Type, s: string): Outcome<Value>
    decreases ty, 0
  {
    match ty
    case TInt => ParsedInt(s)
    case TBool => ParsedBool(s)
    case TString => Unquoted(s)
    case TStruct(name, fs) =>
      var brace := Find(s, '{');
      if brace == -1 || s[..brace] != name then Trap
      else
        var (vs, rest) :- DeserializedFields(fs, s[brace + 1..]);
        if StartsWith('}', rest) then Ok(VStruct(vs)) else Trap
  }

  predicate StartsWith(c: char, s: string) {
    s != "" && s[0] == c
  }

  /** One field read off the front of `s`: its value and the text from its terminator on. */
  function FieldRead(key: string, ty: Type, s: string): Outcome<(Value, string)>
    decreases ty, 1
  {
    var (text, after) :- Carved(key, s);
    var v :- Deserialized(ty, text);
    Ok((v, after))
  }

  /** Reads all fields off the front of `s`; returns their values and the text that is left. */
  function DeserializedFields(fs: Fields, s: string): Outcome<(Values, string)>
    decreases fs, 0
  {
    match fs
    case NoFields => Ok((NoValues, s))
    case Field(key, ty, NoFields) =>
      var (v, after) :- FieldRead(key, ty, s);
      Ok((Cons(v, NoValues), after))
    case Field(key, ty, rest) =>
      var (v, after) :- FieldRead(key, ty, s);
      if !StartsWith(';', after) then Trap
      else
        var (vs, left) :- DeserializedFields(rest, after[1..]);
        Ok((Cons(v, vs), left))
  }

  method DeserInt(s: string) returns (r: Outcome<Value>)
    ensures r == ParsedInt(s)
  {
    var n := |s|;
    if n == 0 {
      return Trap;
    }
    var i := 0;
    var neg := false;
    if s[0] == '-' {
      neg := true;
      i := 1;
    }
    if i >= n {
      return Trap;
    }
    ghost var start := i;
    var acc := 0;
    while i < n
      invariant start <= i <= n
      invariant forall k | start <= k < i :: IsDigit(s[k])
      invariant acc == Wrap64(NatVal(s[start..i]))
    {
      var d := s[i];
      if d < '0' || d > '9' {
        assert !IsDigit(s[start..][i - start]);
        assert neg ==> !AllDigits(s[1..]);
        return Trap;
      }
      assert s[start..i + 1][..i - start] == s[start..i];
      Wrap64Step(NatVal(s[start..i]), DigitVal(d));
      acc := Wrap64(Wrap64(acc * 10) + DigitVal(d));
      i := i + 1;
    }
    assert s[start..i] == s[start..];
    if neg {
      Wrap64Step(NatVal(s[1..]), 0);
      acc := Wrap64(0 - acc);
    } else {
      assert s[start..] == s;
    }
    r := Ok(VInt(acc));
  }

  /** The generated `deserialize_T`. */
  method Deserialize(ty: Type, s: string) returns (r: Outcome<Value>)
    requires ty.TStruct?
    ensures r == Deserialized(ty, s)
    decreases ty, 1
  {
    var brace := IndexOfByte(s, '{');
    var pos := brace + 1;
    var name :- Substring(s, 0, brace);
    if name != ty.name {
      return Trap;
    }
    var parsed :- DeserializeFields(ty.fields, s, pos);
    pos := parsed.1;
    var close :- CharAt(s, pos);
    if close != '}' {
      return Trap;
    }
    r := Ok(VStruct(parsed.0));
  }

  method Convert(ty: Type, text: string) returns (r: Outcome<Value>)
    ensures r == Deserialized(ty, text)
    decreases ty, 2
  {
    match ty {
      case TInt => r := DeserInt(text);
      case TBool => r := ParsedBool(text);
      case TString => r := Unquoted(text);
      case TStruct(_, _) => r := Deserialize(ty, text);
    }
  }

  /** Locates `key=` at the cursor and carves the value that follows it. */
  method Carve(key: string, s: string, start: int) returns (r: Outcome<(string, int)>)
    requires 0 <= start <= |s|
    ensures r == CarvedAt(key, s, start)
  {
    var pos := start;
    var rest := s[pos..];  // a substring that is always in range
    var eq := IndexOfByte(rest, '=');
    var eqAt := pos + eq;
    var found :- Substring(s, pos, eqAt);
    if found != key {
      return Trap;
    }
    pos := eqAt + 1;
    var end := Scan(s, pos);
    var text := s[pos..end];  // in range too: the scan never runs past the end
    r := Ok((text, end));
  }

  /** `Carved` in terms of positions in the whole text. */
  function CarvedAt(key: string, s: string, start: nat): Outcome<(string, int)>
    requires start <= |s|
  {
    var eq := Find(s[start..], '=');
    if eq == -1 || s[start..start + eq] != key then Trap
    else
      var pos := start + eq + 1;
      var end := pos + ScanLen(s[pos..], 0);
      Ok((s[pos..end], end))
  }

  lemma CarvedByPosition(key: string, s: string, start: nat)
    requires start <= |s|
    ensures Agree(s, CarvedAt(key, s, start), Carved(key, s[start..]))
  {
    hide Find, ScanLen;
    var eq := Find(s[start..], '=');
    if eq >= 0 {
      var pos := start + eq + 1;
      var k := ScanLen(s[pos..], 0);
      assert s[start..][..eq] == s[start..start + eq];
      assert s[start..][eq + 1..] == s[pos..];
      assert s[pos..][..k] == s[pos..pos + k];
      assert s[pos..][k..] == s[pos + k..];
    }
  }

  /** The statements generated for one field: carve its text, convert it, advance the cursor. */
  method ReadField(key: string, ty: Type, s: string, start: int) returns (r: Outcome<(Value, int)>)
    requires 0 <= start <= |s|
    ensures Agree(s, r, FieldRead(key, ty, s[start..]))
    decreases ty, 3
  {
    CarvedByPosition(key, s, start);
    var carved :- Carve(key, s, start);
    var v :- Convert(ty, carved.0);
    r := Ok((v, carved.1));
  }

  /** The statements generated for the fields `fs`, entered with the cursor at `start`. */
  method DeserializeFields(fs: Fields, s: string, start: int) returns (r: Outcome<(Values, int)>)
    requires 0 <= start <= |s|
    ensures Agree(s, r, DeserializedFields(fs, s[start..]))
    decreases fs, 0
  {
    var pos := start;
    if fs.NoFields? {
      return Ok((NoValues, pos));
    }
    var field :- ReadField(fs.key, fs.ty, s, pos);
    pos := field.1;
    if fs.rest.NoFields? {
      return Ok((Cons(field.0, NoValues), pos));
    }
    var sep :- CharAt(s, pos);
    if sep != ';' {
      return Trap;
    }
    assert s[pos..][1..] == s[pos + 1..];
    pos := pos + 1;
    var more :- DeserializeFields(fs.rest, s, pos);
    r := Ok((Cons(field.0, more.0), more.1));
  }

  /** A result with a cursor position and one with the text from there on say the same. */
  predicate Agree<T(==)>(s: string, byPosition: Outcome<(T, int)>, byText: Outcome<(T, string)>) {
    match byPosition
    case Trap => byText.Trap?
    case Ok((v, pos)) => 0 <= pos <= |s| && byText == Ok((v, s[pos..]))
  }
}
