/** The types a struct can derive `Serializable` and `Deserializable` for, and their values. */
module SerdeSchema {
  import opened Decimal

  datatype Type =
    | TInt
    | TBool
    | TString
    | TStruct(name: string, fields: Fields)

  datatype Fields = NoFields | Field(key: string, ty: Type, rest: Fields)

  datatype Value =
    | VInt(n: int)
    | VBool(b: bool)
    | VString(text: string)
    | VStruct(values: Values)

  datatype Values = NoValues | Cons(head: Value, tail: Values)

  predicate IsIdentifier(s: string) {
    && s != ""
    && forall i | 0 <= i < |s| :: 'a' <= s[i] <= 'z' || 'A' <= s[i] <= 'Z' || '0' <= s[i] <= '9' || s[i] == '_'
  }

  /** Type and field names come from Kira source, so they are identifiers. */
  predicate WellNamed(ty: Type) {
    ty.TStruct? ==> IsIdentifier(ty.name) && WellNamedFields(ty.fields)
  }

  predicate WellNamedFields(fs: Fields) {
    fs.Field? ==> IsIdentifier(fs.key) && WellNamed(fs.ty) && WellNamedFields(fs.rest)
  }

  predicate HasType(v: Value, ty: Type) {
    match ty
    case TInt => v.VInt? && InRange64(v.n)
    case TBool => v.VBool?
    case TString => v.VString?
    case TStruct(_, fs) => v.VStruct? && HaveTypes(v.values, fs)
  }

  predicate HaveTypes(vs: Values, fs: Fields) {
    match fs
    case NoFields => vs.NoValues?
    case Field(_, ty, rest) => vs.Cons? && HasType(vs.head, ty) && HaveTypes(vs.tail, rest)
  }
}
