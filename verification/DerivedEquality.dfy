/**
 The functions that `@Derive(Equatable)` and `@Derive(Clone)` generate.  They compare fields with `!=`,
 whose meaning on floats depends on the backend: the interpreter's is true when either side is a NaN, the
 native code's is false.
 */
module DerivedEquality {

  datatype Backend = Interpreter | Native

  /** A double: a NaN, or a number; zero has two of them. */
  datatype Double = NaN | Infinite(neg: bool) | Finite(neg: bool, magnitude: real)

  datatype Type = TExact | TDouble | TStruct(fields: Types)

  datatype Types = NoTypes | TField(ty: Type, rest: Types)

  /** `Exact` stands for every scalar that is not a float: integers, booleans, strings, pointers. */
  datatype Value = Exact(bytes: string) | VDouble(d: Double) | VStruct(fields: Values)

  datatype Values = NoValues | Cons(head: Value, tail: Values)

  predicate HasType(v: Value, ty: Type) {
    match ty
    case TExact => v.Exact?
    case TDouble => v.VDouble? && (v.d.Finite? ==> v.d.magnitude >= 0.0)
    case TStruct(tys) => v.VStruct? && HaveTypes(v.fields, tys)
  }

  predicate HaveTypes(vs: Values, tys: Types) {
    match tys
    case NoTypes => vs.NoValues?
    case TField(ty, rest) => vs.Cons? && HasType(vs.head, ty) && HaveTypes(vs.tail, rest)
  }

  predicate IsZero(d: Double) {
    d.Finite? && d.magnitude == 0.0
  }

  predicate DoublesDiffer(backend: Backend, a: Double, b: Double) {
    if a.NaN? || b.NaN? then backend.Interpreter?
    else a != b && !(IsZero(a) && IsZero(b))
  }

  /** The generated `eq_T` of a struct, and the field comparison of a scalar. */
  predicate Eq(backend: Backend, ty: Type, a: Value, b: Value)
    requires HasType(a, ty) && HasType(b, ty)
  {
    match ty
    case TExact => !(a.bytes != b.bytes)
    case TDouble => !DoublesDiffer(backend, a.d, b.d)
    case TStruct(tys) => EqFields(backend, tys, a.fields, b.fields)
  }

  predicate EqFields(backend: Backend, tys: Types, a: Values, b: Values)
    requires HaveTypes(a, tys) && HaveTypes(b, tys)
  {
    tys.NoTypes? || (Eq(backend, tys.ty, a.head, b.head) && EqFields(backend, tys.rest, a.tail, b.tail))
  }

  function Clone(ty: Type, v: Value): Value
    requires HasType(v, ty)
  {
    match ty
    case TExact => Exact(v.bytes)
    case TDouble => VDouble(v.d)
    case TStruct(tys) => VStruct(CloneFields(tys, v.fields))
  }

  function CloneFields(tys: Types, vs: Values): Values
    requires HaveTypes(vs, tys)
  {
    if tys.NoTypes? then NoValues else Cons(Clone(tys.ty, vs.head), CloneFields(tys.rest, vs.tail))
  }

  predicate NaNFree(v: Value) {
    match v
    case Exact(_) => true
    case VDouble(d) => !d.NaN?
    case VStruct(vs) => AllNaNFree(vs)
  }

  predicate AllNaNFree(vs: Values) {
    vs.Cons? ==> NaNFree(vs.head) && AllNaNFree(vs.tail)
  }

  /** The value with every zero made positive. */
  function Canonical(v: Value): Value {
    match v
    case Exact(_) => v
    case VDouble(d) => if IsZero(d) then VDouble(Finite(false, 0.0)) else v
    case VStruct(vs) => VStruct(CanonicalFields(vs))
  }

  function CanonicalFields(vs: Values): Values {
    if vs.NoValues? then NoValues else Cons(Canonical(vs.head), CanonicalFields(vs.tail))
  }

  /** In the interpreter `eq_T` says: no NaN anywhere, and equal up to the sign of zeros. */
  lemma {:induction false} InterpreterEquality(ty: Type, a: Value, b: Value)
    requires HasType(a, ty) && HasType(b, ty)
    ensures Eq(Interpreter, ty, a, b) <==> NaNFree(a) && Canonical(a) == Canonical(b)
    decreases ty
  {
    if ty.TStruct? {
      InterpreterEqualityFields(ty.fields, a.fields, b.fields);
    }
  }

  lemma {:induction false} InterpreterEqualityFields(tys: Types, a: Values, b: Values)
    requires HaveTypes(a, tys) && HaveTypes(b, tys)
    ensures EqFields(Interpreter, tys, a, b) <==> AllNaNFree(a) && CanonicalFields(a) == CanonicalFields(b)
    decreases tys
  {
    if tys.TField? {
      InterpreterEquality(tys.ty, a.head, b.head);
      InterpreterEqualityFields(tys.rest, a.tail, b.tail);
    }
  }

  /** The backends give different answers exactly when native code says "equal" of values with a NaN in one. */
  lemma {:induction false} BackendsAgree(ty: Type, a: Value, b: Value)
    requires HasType(a, ty) && HasType(b, ty)
    ensures Eq(Interpreter, ty, a, b) == Eq(Native, ty, a, b) <==>
            (NaNFree(a) && NaNFree(b)) || !Eq(Native, ty, a, b)
    ensures Eq(Interpreter, ty, a, b) ==> Eq(Native, ty, a, b) && NaNFree(a) && NaNFree(b)
    decreases ty
  {
    if ty.TStruct? {
      BackendsAgreeFields(ty.fields, a.fields, b.fields);
    }
  }

  lemma {:induction false} BackendsAgreeFields(tys: Types, a: Values, b: Values)
    requires HaveTypes(a, tys) && HaveTypes(b, tys)
    ensures EqFields(Interpreter, tys, a, b) == EqFields(Native, tys, a, b) <==>
            (AllNaNFree(a) && AllNaNFree(b)) || !EqFields(Native, tys, a, b)
    ensures EqFields(Interpreter, tys, a, b) ==> EqFields(Native, tys, a, b) && AllNaNFree(a) && AllNaNFree(b)
    decreases tys
  {
    if tys.TField? {
      BackendsAgree(tys.ty, a.head, b.head);
      BackendsAgreeFields(tys.rest, a.tail, b.tail);
    }
  }

  /** On NaN-free values `eq_T` is equality up to the sign of zeros on every backend, hence an equivalence. */
  lemma DecidesEquality(backend: Backend, ty: Type, a: Value, b: Value)
    requires HasType(a, ty) && HasType(b, ty) && NaNFree(a) && NaNFree(b)
    ensures Eq(backend, ty, a, b) <==> Canonical(a) == Canonical(b)
  {
    InterpreterEquality(ty, a, b);
    BackendsAgree(ty, a, b);
  }

  // ---------------------------------------------------------------------------
  // Equality of numbers
  // ---------------------------------------------------------------------------

  /** The number that a finite double stands for. */
  function Number(d: Double): real
    requires d.Finite?
  {
    if d.neg then -d.magnitude else d.magnitude
  }

  /** Two doubles stand for one number, or are the same infinity. */
  predicate SameNumber(a: Double, b: Double) {
    match (a, b)
    case (Finite(_, _), Finite(_, _)) => Number(a) == Number(b)
    case (Infinite(m), Infinite(n)) => m == n
    case _ => false
  }

  /** Every field holds the same bytes or the same number. */
  predicate SameContents(ty: Type, a: Value, b: Value)
    requires HasType(a, ty) && HasType(b, ty)
  {
    match ty
    case TExact => a.bytes == b.bytes
    case TDouble => SameNumber(a.d, b.d)
    case TStruct(tys) => AllSameContents(tys, a.fields, b.fields)
  }

  predicate AllSameContents(tys: Types, a: Values, b: Values)
    requires HaveTypes(a, tys) && HaveTypes(b, tys)
  {
    tys.TField? ==> SameContents(tys.ty, a.head, b.head) && AllSameContents(tys.rest, a.tail, b.tail)
  }

  /**
   In the interpreter `eq_T` says that every field holds the same bytes or the same number, and a NaN is no
   number; on NaN-free values native code says the same.
   */
  lemma {:induction false} EqualNumbers(ty: Type, a: Value, b: Value)
    requires HasType(a, ty) && HasType(b, ty)
    ensures Eq(Interpreter, ty, a, b) <==> SameContents(ty, a, b)
    ensures NaNFree(a) && NaNFree(b) ==> (Eq(Native, ty, a, b) <==> SameContents(ty, a, b))
    decreases ty
  {
    if ty.TStruct? {
      AllEqualNumbers(ty.fields, a.fields, b.fields);
    }
  }

  lemma {:induction false} AllEqualNumbers(tys: Types, a: Values, b: Values)
    requires HaveTypes(a, tys) && HaveTypes(b, tys)
    ensures EqFields(Interpreter, tys, a, b) <==> AllSameContents(tys, a, b)
    ensures AllNaNFree(a) && AllNaNFree(b) ==> (EqFields(Native, tys, a, b) <==> AllSameContents(tys, a, b))
    decreases tys
  {
    if tys.TField? {
      EqualNumbers(tys.ty, a.head, b.head);
      AllEqualNumbers(tys.rest, a.tail, b.tail);
    }
  }

  // ---------------------------------------------------------------------------
  // Native equality, and when it can be relied on
  // ---------------------------------------------------------------------------

  /** `a` with each of its NaNs replaced by what `b` has in that place. */
  function Filled(ty: Type, a: Value, b: Value): Value
    requires HasType(a, ty) && HasType(b, ty)
  {
    match ty
    case TExact => a
    case TDouble => if a.d.NaN? then b else a
    case TStruct(tys) => VStruct(FilledFields(tys, a.fields, b.fields))
  }

  function FilledFields(tys: Types, a: Values, b: Values): Values
    requires HaveTypes(a, tys) && HaveTypes(b, tys)
  {
    if tys.NoTypes? then NoValues
    else Cons(Filled(tys.ty, a.head, b.head), FilledFields(tys.rest, a.tail, b.tail))
  }

  /** In native code a NaN is a wildcard: the values agree once each fills the other's NaNs. */
  lemma {:induction false} NativeEquality(ty: Type, a: Value, b: Value)
    requires HasType(a, ty) && HasType(b, ty)
    ensures Eq(Native, ty, a, b) <==> Canonical(Filled(ty, a, b)) == Canonical(Filled(ty, b, a))
    decreases ty
  {
    if ty.TStruct? {
      NativeEqualityFields(ty.fields, a.fields, b.fields);
    }
  }

  lemma {:induction false} NativeEqualityFields(tys: Types, a: Values, b: Values)
    requires HaveTypes(a, tys) && HaveTypes(b, tys)
    ensures EqFields(Native, tys, a, b) <==>
            CanonicalFields(FilledFields(tys, a, b)) == CanonicalFields(FilledFields(tys, b, a))
    decreases tys
  {
    if tys.TField? {
      NativeEquality(tys.ty, a.head, b.head);
      NativeEqualityFields(tys.rest, a.tail, b.tail);
    }
  }

  /** The backends differ on two values if and only if one has a NaN and they agree once NaNs are filled. */
  lemma BackendsDiffer(ty: Type, a: Value, b: Value)
    requires HasType(a, ty) && HasType(b, ty)
    ensures Eq(Interpreter, ty, a, b) != Eq(Native, ty, a, b) <==>
            !(NaNFree(a) && NaNFree(b)) && Canonical(Filled(ty, a, b)) == Canonical(Filled(ty, b, a))
  {
    BackendsAgree(ty, a, b);
    NativeEquality(ty, a, b);
  }

  predicate HasDouble(ty: Type) {
    match ty
    case TExact => false
    case TDouble => true
    case TStruct(tys) => HaveDouble(tys)
  }

  predicate HaveDouble(tys: Types) {
    tys.TField? && (HasDouble(tys.ty) || HaveDouble(tys.rest))
  }

  /** The value with `d` for each NaN. */
  function WithoutNaN(v: Value, d: Double): Value {
    match v
    case Exact(_) => v
    case VDouble(x) => if x.NaN? then VDouble(d) else v
    case VStruct(vs) => VStruct(AllWithoutNaN(vs, d))
  }

  function AllWithoutNaN(vs: Values, d: Double): Values {
    if vs.NoValues? then NoValues else Cons(WithoutNaN(vs.head, d), AllWithoutNaN(vs.tail, d))
  }

  /** The value with a NaN for each double. */
  function OnlyNaN(v: Value): Value {
    match v
    case Exact(_) => v
    case VDouble(_) => VDouble(NaN)
    case VStruct(vs) => VStruct(AllOnlyNaN(vs))
  }

  function AllOnlyNaN(vs: Values): Values {
    if vs.NoValues? then NoValues else Cons(OnlyNaN(vs.head), AllOnlyNaN(vs.tail))
  }

  const ZERO := Finite(false, 0.0)
  const ONE := Finite(false, 1.0)

  /** Replacing the NaNs by zeros or by ones: native code sees no change, but tells the two results apart. */
  lemma {:induction false} ReplacedNaN(ty: Type, v: Value)
    requires HasType(v, ty)
    ensures var a, c := WithoutNaN(v, ZERO), WithoutNaN(v, ONE);
            && HasType(a, ty) && HasType(c, ty) && NaNFree(a) && NaNFree(c)
            && Eq(Native, ty, a, v) && Eq(Native, ty, v, c)
            && (Eq(Native, ty, a, c) <==> NaNFree(v))
    decreases ty
  {
    if ty.TStruct? {
      AllReplacedNaN(ty.fields, v.fields);
    }
  }

  lemma {:induction false} AllReplacedNaN(tys: Types, vs: Values)
    requires HaveTypes(vs, tys)
    ensures var a, c := AllWithoutNaN(vs, ZERO), AllWithoutNaN(vs, ONE);
            && HaveTypes(a, tys) && HaveTypes(c, tys) && AllNaNFree(a) && AllNaNFree(c)
            && EqFields(Native, tys, a, vs) && EqFields(Native, tys, vs, c)
            && (EqFields(Native, tys, a, c) <==> AllNaNFree(vs))
    decreases tys
  {
    if tys.TField? {
      ReplacedNaN(tys.ty, vs.head);
      AllReplacedNaN(tys.rest, vs.tail);
    }
  }

  /** Replacing every double by a NaN: native code sees no change. */
  lemma {:induction false} ReplacedDoubles(ty: Type, v: Value)
    requires HasType(v, ty)
    ensures HasType(OnlyNaN(v), ty) && Eq(Native, ty, OnlyNaN(v), v)
    ensures NaNFree(OnlyNaN(v)) <==> !HasDouble(ty)
    ensures !HasDouble(ty) ==> NaNFree(v)
    decreases ty
  {
    if ty.TStruct? {
      AllReplacedDoubles(ty.fields, v.fields);
    }
  }

  lemma {:induction false} AllReplacedDoubles(tys: Types, vs: Values)
    requires HaveTypes(vs, tys)
    ensures HaveTypes(AllOnlyNaN(vs), tys) && EqFields(Native, tys, AllOnlyNaN(vs), vs)
    ensures AllNaNFree(AllOnlyNaN(vs)) <==> !HaveDouble(tys)
    ensures !HaveDouble(tys) ==> AllNaNFree(vs)
    decreases tys
  {
    if tys.TField? {
      ReplacedDoubles(tys.ty, vs.head);
      AllReplacedDoubles(tys.rest, vs.tail);
    }
  }

  /** Whatever native code finds equal to `b` on either side is equal in native code. */
  ghost predicate TransitiveThrough(ty: Type, b: Value)
    requires HasType(b, ty)
  {
    forall a, c | HasType(a, ty) && HasType(c, ty) && Eq(Native, ty, a, b) && Eq(Native, ty, b, c) ::
      Eq(Native, ty, a, c)
  }

  /** Native equality is transitive through a value if and only if the value has no NaN. */
  lemma NativeTransitivity(ty: Type, b: Value)
    requires HasType(b, ty)
    ensures TransitiveThrough(ty, b) <==> NaNFree(b)
  {
    if NaNFree(b) {
      forall a, c | HasType(a, ty) && HasType(c, ty) && Eq(Native, ty, a, b) && Eq(Native, ty, b, c)
        ensures Eq(Native, ty, a, c)
      {
        ChainThrough(ty, a, b, c);
      }
    }
    ReplacedNaN(ty, b);
  }

  lemma {:induction false} ChainThrough(ty: Type, a: Value, b: Value, c: Value)
    requires HasType(a, ty) && HasType(b, ty) && HasType(c, ty) && NaNFree(b)
    requires Eq(Native, ty, a, b) && Eq(Native, ty, b, c)
    ensures Eq(Native, ty, a, c)
    decreases ty
  {
    if ty.TStruct? {
      ChainThroughFields(ty.fields, a.fields, b.fields, c.fields);
    }
  }

  lemma {:induction false} ChainThroughFields(tys: Types, a: Values, b: Values, c: Values)
    requires HaveTypes(a, tys) && HaveTypes(b, tys) && HaveTypes(c, tys) && AllNaNFree(b)
    requires EqFields(Native, tys, a, b) && EqFields(Native, tys, b, c)
    ensures EqFields(Native, tys, a, c)
    decreases tys
  {
    if tys.TField? {
      ChainThrough(tys.ty, a.head, b.head, c.head);
      ChainThroughFields(tys.rest, a.tail, b.tail, c.tail);
    }
  }

  /** Both backends compare every NaN-free value with `b` alike. */
  ghost predicate AgreeOn(ty: Type, b: Value)
    requires HasType(b, ty)
  {
    forall a | HasType(a, ty) && NaNFree(a) :: Eq(Interpreter, ty, a, b) == Eq(Native, ty, a, b)
  }

  /** Both backends compare every value at all with `b` alike. */
  ghost predicate AgreeOnAll(ty: Type, b: Value)
    requires HasType(b, ty)
  {
    forall a | HasType(a, ty) :: Eq(Interpreter, ty, a, b) == Eq(Native, ty, a, b)
  }

  /**
   Comparisons of NaN-free values with `b` come out alike on both backends if and only if `b` has no NaN;
   comparisons of all values do if and only if the type has no double.
   */
  lemma BackendAgreement(ty: Type, b: Value)
    requires HasType(b, ty)
    ensures AgreeOn(ty, b) <==> NaNFree(b)
    ensures AgreeOnAll(ty, b) <==> !HasDouble(ty)
  {
    forall a | HasType(a, ty)
      ensures NaNFree(a) && NaNFree(b) ==> Eq(Interpreter, ty, a, b) == Eq(Native, ty, a, b)
      ensures Eq(Interpreter, ty, a, b) ==> NaNFree(a) && NaNFree(b)
      ensures !HasDouble(ty) ==> NaNFree(a) && NaNFree(b)
    {
      BackendsAgree(ty, a, b);
      ReplacedDoubles(ty, a);
      ReplacedDoubles(ty, b);
    }
    ReplacedNaN(ty, b);
    ReplacedDoubles(ty, b);
  }

  /** On this backend `eq_T` with `b` is equality up to the sign of zeros, for every value at all. */
  ghost predicate DecidesOnAll(backend: Backend, ty: Type, b: Value)
    requires HasType(b, ty)
  {
    forall a | HasType(a, ty) :: Eq(backend, ty, a, b) <==> Canonical(a) == Canonical(b)
  }

  /** The same for every NaN-free value. */
  ghost predicate DecidesOn(backend: Backend, ty: Type, b: Value)
    requires HasType(b, ty)
  {
    forall a | HasType(a, ty) && NaNFree(a) :: Eq(backend, ty, a, b) <==> Canonical(a) == Canonical(b)
  }

  lemma {:induction false} CanonicalKeepsNaN(v: Value)
    ensures NaNFree(Canonical(v)) <==> NaNFree(v)
    decreases v
  {
    if v.VStruct? {
      CanonicalFieldsKeepNaN(v.fields);
    }
  }

  lemma {:induction false} CanonicalFieldsKeepNaN(vs: Values)
    ensures AllNaNFree(CanonicalFields(vs)) <==> AllNaNFree(vs)
    decreases vs
  {
    if vs.Cons? {
      CanonicalKeepsNaN(vs.head);
      CanonicalFieldsKeepNaN(vs.tail);
    }
  }

  /**
   In the interpreter `eq_T` with `b` is equality up to the sign of zeros if and only if `b` has no NaN.  In
   native code the same condition is exact for comparisons with NaN-free values; for comparisons with all
   values it takes a type without doubles.
   */
  lemma DecidesExactly(ty: Type, b: Value)
    requires HasType(b, ty)
    ensures DecidesOnAll(Interpreter, ty, b) <==> NaNFree(b)
    ensures DecidesOn(Native, ty, b) <==> NaNFree(b)
    ensures DecidesOnAll(Native, ty, b) <==> !HasDouble(ty)
  {
    forall a | HasType(a, ty)
      ensures Eq(Interpreter, ty, a, b) <==> NaNFree(a) && Canonical(a) == Canonical(b)
      ensures NaNFree(a) && NaNFree(b) ==> (Eq(Native, ty, a, b) <==> Canonical(a) == Canonical(b))
      ensures NaNFree(a) != NaNFree(b) ==> Canonical(a) != Canonical(b)
      ensures !HasDouble(ty) ==> NaNFree(a) && NaNFree(b)
    {
      InterpreterEquality(ty, a, b);
      BackendsAgree(ty, a, b);
      CanonicalKeepsNaN(a);
      CanonicalKeepsNaN(b);
      ReplacedDoubles(ty, a);
      ReplacedDoubles(ty, b);
    }
    ReplacedNaN(ty, b);
    ReplacedDoubles(ty, b);
  }

  const ONE_DOUBLE: Type := TStruct(TField(TDouble, NoTypes))

  function Boxed(d: Double): Value {
    VStruct(Cons(VDouble(d), NoValues))
  }

  /**
   Concretely, for a struct with one float field in native code: 0 and 1 both equal a NaN and not each other.
   So the interpreter's exact condition, a NaN-free `b`, is not enough there when the other side may be a NaN.
   */
  lemma NativeEqualityNotTransitive()
    ensures Eq(Native, ONE_DOUBLE, Boxed(ZERO), Boxed(NaN)) && Eq(Native, ONE_DOUBLE, Boxed(NaN), Boxed(ONE))
    ensures !Eq(Native, ONE_DOUBLE, Boxed(ZERO), Boxed(ONE))
    ensures NaNFree(Boxed(ZERO))
    ensures !AgreeOnAll(ONE_DOUBLE, Boxed(ZERO)) && !DecidesOnAll(Native, ONE_DOUBLE, Boxed(ZERO))
  {
    BackendAgreement(ONE_DOUBLE, Boxed(ZERO));
    DecidesExactly(ONE_DOUBLE, Boxed(ZERO));
    assert HasDouble(ONE_DOUBLE);
  }

  /** A clone has the value it was made from; `eq_T` confirms it except in the interpreter on a NaN. */
  lemma {:induction false} CloneIsEqual(backend: Backend, ty: Type, v: Value)
    requires HasType(v, ty)
    ensures Clone(ty, v) == v
    ensures Eq(backend, ty, Clone(ty, v), v) <==> backend.Native? || NaNFree(v)
    decreases ty
  {
    if ty.TStruct? {
      CloneFieldsEqual(backend, ty.fields, v.fields);
    }
  }

  lemma {:induction false} CloneFieldsEqual(backend: Backend, tys: Types, vs: Values)
    requires HaveTypes(vs, tys)
    ensures CloneFields(tys, vs) == vs
    ensures EqFields(backend, tys, CloneFields(tys, vs), vs) <==> backend.Native? || AllNaNFree(vs)
    decreases tys
  {
    if tys.TField? {
      CloneIsEqual(backend, tys.ty, vs.head);
      CloneFieldsEqual(backend, tys.rest, vs.tail);
    }
  }
}
