/** The argument builder of the dynamic call bridge, and the 64-bit words that its arguments travel in. */
module DynamicCall {

  // Type tags
  const PTR_TAG := 11
  const TYPE_COUNT := 12

  type Word = w: nat | w < 0x1_0000_0000_0000_0000

  datatype Arg = Arg(tag: nat, word: Word)

  const MAX_ARGS := 32

  // ---------------------------------------------------------------------------
  // The builder
  // ---------------------------------------------------------------------------

  class Call {
    const capacity: nat
    var count: nat
    const types: array<nat>
    const values: array<Word>

    ghost predicate Valid()
      reads this
    {
      && 0 < capacity <= MAX_ARGS && count <= capacity
      && types.Length == MAX_ARGS && values.Length == MAX_ARGS
    }

    ghost function Contents(): seq<Arg>
      reads this, types, values
      requires Valid()
    {
      Paired(types[..count], values[..count])
    }

    /** `maxArgs` 0 asks for the largest capacity. */
    constructor (maxArgs: nat)
      requires maxArgs <= MAX_ARGS
      ensures Valid() && Contents() == [] && fresh(types) && fresh(values)
      ensures capacity == if maxArgs == 0 then MAX_ARGS else maxArgs
    {
      capacity := if maxArgs == 0 then MAX_ARGS else maxArgs;
      count := 0;
      types := new nat[MAX_ARGS](_ => 0);
      values := new Word[MAX_ARGS](_ => 0);
    }

    /** `kira_dynamic_call_new`: no builder for more than the largest capacity. */
    static method New(maxArgs: nat) returns (call: Call?)
      ensures call == null <==> maxArgs > MAX_ARGS
      ensures call != null ==> call.Valid() && fresh(call) && call.Contents() == [] &&
                               call.capacity == if maxArgs == 0 then MAX_ARGS else maxArgs
    {
      if maxArgs > MAX_ARGS {
        return null;
      }
      call := new Call(maxArgs);
    }

    /** The typed append functions. */
    method AppendTyped(v: Typed)
      requires Valid() && InWidth(v)
      modifies this`count, types, values
      ensures Valid() && Contents() == Step(capacity, old(Contents()), BuilderOp.Append(Encoded(v)))
    {
      Append(Encoded(v));
    }

    method Reset()
      requires Valid()
      modifies this`count
      ensures Valid() && Contents() == Step(capacity, old(Contents()), BuilderOp.Reset)
    {
      count := 0;
    }

    /** An argument beyond the capacity is dropped without notice. */
    method Append(arg: Arg)
      requires Valid()
      modifies this`count, types, values
      ensures Valid() && Contents() == Step(capacity, old(Contents()), BuilderOp.Append(arg))
    {
      if count >= capacity {
        return;
      }
      types[count] := arg.tag;
      values[count] := arg.word;
      count := count + 1;
    }
  }

  function Paired(types: seq<nat>, values: seq<Word>): (args: seq<Arg>)
    requires |types| == |values|
    ensures |args| == |types|
    ensures forall i | 0 <= i < |args| :: args[i] == Arg(types[i], values[i])
  {
    if types == [] then []
    else
      var last := |types| - 1;
      Paired(types[..last], values[..last]) + [Arg(types[last], values[last])]
  }

  datatype BuilderOp = Append(arg: Arg) | Reset

  function Step(capacity: nat, args: seq<Arg>, op: BuilderOp): seq<Arg> {
    match op
    case Append(arg) => if |args| >= capacity then args else args + [arg]
    case Reset => []
  }

  /** What a builder holds after a sequence of operations. */
  function Built(capacity: nat, ops: seq<BuilderOp>): seq<Arg> {
    if ops == [] then []
    else Step(capacity, Built(capacity, ops[..|ops| - 1]), ops[|ops| - 1])
  }

  /** Everything appended since the last reset, however much that is. */
  function SinceReset(ops: seq<BuilderOp>): seq<Arg> {
    if ops == [] then []
    else match ops[|ops| - 1]
         case Append(arg) => SinceReset(ops[..|ops| - 1]) + [arg]
         case Reset => []
  }

  function FirstOf(args: seq<Arg>, n: nat): seq<Arg> {
    if |args| <= n then args else args[..n]
  }

  /** After any operations the builder holds the first `capacity` arguments appended since the last reset. */
  lemma {:induction false} KeepsFirst(capacity: nat, ops: seq<BuilderOp>)
    ensures Built(capacity, ops) == FirstOf(SinceReset(ops), capacity)
    ensures |Built(capacity, ops)| <= capacity
  {
    if ops != [] {
      KeepsFirst(capacity, ops[..|ops| - 1]);
      var before := SinceReset(ops[..|ops| - 1]);
      if ops[|ops| - 1].Append? && |before| >= capacity {
        assert (before + [ops[|ops| - 1].arg])[..capacity] == before[..capacity];
      }
    }
  }

  // ---------------------------------------------------------------------------
  // Words
  // ---------------------------------------------------------------------------

  /** A value as the typed append functions receive it; floats are given by their bits. */
  datatype Typed =
    | I32(i: int)
    | U32(u: nat)
    | I64(i: int)
    | U64(u: nat)
    | F32(bits: nat)
    | F64(bits: nat)
    | Ptr(address: nat)

  predicate InWidth(v: Typed) {
    match v
    case I32(i) => -0x8000_0000 <= i < 0x8000_0000
    case U32(u) => u < 0x1_0000_0000
    case I64(i) => -0x8000_0000_0000_0000 <= i < 0x8000_0000_0000_0000
    case U64(u) => u < 0x1_0000_0000_0000_0000
    case F32(bits) => bits < 0x1_0000_0000
    case F64(bits) => bits < 0x1_0000_0000_0000_0000
    case Ptr(address) => address < 0x1_0000_0000_0000_0000
  }

  /** The argument that each append function stores: the value converted to an unsigned word. */
  function Encoded(v: Typed): Arg
    requires InWidth(v)
  {
    match v
    case I32(i) => Arg(5, i % 0x1_0000_0000)
    case U32(u) => Arg(6, u)
    case I64(i) => Arg(7, i % 0x1_0000_0000_0000_0000)
    case U64(u) => Arg(8, u)
    case F32(bits) => Arg(9, bits)
    case F64(bits) => Arg(10, bits)
    case Ptr(address) => Arg(PTR_TAG, address)
  }

  /** Tags and words as the bridge's header numbers them: the unsigned word of the value's width. */
  lemma EncodedLiterally()
    ensures Encoded(I32(-1)) == Arg(5, 0xFFFF_FFFF) && Encoded(U32(7)) == Arg(6, 7)
    ensures Encoded(I64(-1)) == Arg(7, 0xFFFF_FFFF_FFFF_FFFF) && Encoded(U64(7)) == Arg(8, 7)
    ensures Encoded(F32(7)) == Arg(9, 7) && Encoded(F64(7)) == Arg(10, 7) && Encoded(Ptr(7)) == Arg(11, 7)
  {
  }

  /** The `n` low bytes of a word as they lie in little-endian memory. */
  function Stored(w: nat, n: nat): seq<nat> {
    if n == 0 then [] else [w % 256] + Stored(w / 256, n - 1)
  }

  /** The number read from little-endian bytes. */
  function Loaded(bytes: seq<nat>): nat {
    if bytes == [] then 0 else bytes[0] + 256 * Loaded(bytes[1..])
  }

  function Signed(u: nat, half: nat): int {
    if u < half then u else u - 2 * half
  }

  /** What libffi makes of eight stored bytes: it reads as many as the type of the tag is wide. */
  function ReadBack(tag: nat, bytes: seq<nat>): Typed
    requires |bytes| == 8
  {
    if tag == 5 then I32(Signed(Loaded(bytes[..4]), 0x8000_0000))
    else if tag == 6 then U32(Loaded(bytes[..4]))
    else if tag == 7 then I64(Signed(Loaded(bytes), 0x8000_0000_0000_0000))
    else if tag == 8 then U64(Loaded(bytes))
    else if tag == 9 then F32(Loaded(bytes[..4]))
    else if tag == 10 then F64(Loaded(bytes))
    else Ptr(Loaded(bytes))
  }

  function Pow256(n: nat): (p: nat)
    ensures p > 0
  {
    if n == 0 then 1 else 256 * Pow256(n - 1)
  }

  lemma {:induction false} StoredLoads(w: nat, n: nat)
    ensures |Stored(w, n)| == n
    ensures w < Pow256(n) ==> Loaded(Stored(w, n)) == w
  {
    if n > 0 {
      StoredLoads(w / 256, n - 1);
      assert Stored(w, n)[1..] == Stored(w / 256, n - 1);
      assert w == w % 256 + 256 * (w / 256);
    }
  }

  lemma {:induction false} StoredPrefix(w: nat, k: nat, n: nat)
    requires k <= n
    ensures |Stored(w, n)| == n && Stored(w, n)[..k] == Stored(w, k)
  {
    StoredLoads(w, n);
    if k > 0 {
      StoredPrefix(w / 256, k - 1, n - 1);
    }
  }

  lemma Widths()
    ensures Pow256(4) == 0x1_0000_0000 && Pow256(8) == 0x1_0000_0000_0000_0000
  {
  }

  /** Every argument reads back as the value that was appended, at the width of its type. */
  lemma ReadsBack(v: Typed)
    requires InWidth(v)
    ensures |Stored(Encoded(v).word, 8)| == 8
    ensures ReadBack(Encoded(v).tag, Stored(Encoded(v).word, 8)) == v
  {
    var w := Encoded(v).word;
    Widths();
    StoredLoads(w, 8);
    StoredLoads(w, 4);
    StoredPrefix(w, 4, 8);
  }
}
