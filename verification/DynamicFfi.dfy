/** The dynamic call bridge: the lazily loaded libffi record and the last-error protocol. */
module DynamicFfi {
  import opened DynamicCall

  const OK := 0
  const NULL_SYMBOL := 1
  const LIBFFI_UNAVAILABLE := 2
  const UNSUPPORTED_TYPE := 3
  const PREP_FAILED := 4
  const TOO_MANY_ARGS := 5

  /** An address for each type tag, 0 for null. */
  type TypeTable = t: seq<nat> | |t| == TYPE_COUNT witness [0, 0, 0, 0, 0, 0, 0, 0, 0, 0, 0, 0]

  /** The cached library and its symbols, each an address with 0 for null. */
  datatype Libffi = Libffi(library: nat, prepCif: nat, call: nat, types: TypeTable)

  const EMPTY := Libffi(0, 0, 0, [0, 0, 0, 0, 0, 0, 0, 0, 0, 0, 0, 0])

  /** The symbols that every call needs are there. */
  predicate Complete(ffi: Libffi) {
    ffi.library != 0 && ffi.prepCif != 0 && ffi.call != 0 && ffi.types[PTR_TAG] != 0
  }

  /** Either nothing is cached, or a complete library. */
  predicate Usable(ffi: Libffi) {
    ffi == EMPTY || Complete(ffi)
  }

  function FfiType(ffi: Libffi, tag: nat): nat {
    if tag < TYPE_COUNT then ffi.types[tag] else 0
  }

  predicate TypesResolve(ffi: Libffi, resultType: nat, args: seq<Arg>) {
    FfiType(ffi, resultType) != 0 && forall i | 0 <= i < |args| :: FfiType(ffi, args[i].tag) != 0
  }

  /** What the host answers at the time of a request: the library it finds, and whether libffi refuses the call. */
  datatype Host = Host(found: Libffi, prepFails: bool)

  /**
   A request to call a native function; 0 is the null function.  `nested` is what the function does, if
   it gets to run: the requests that it makes of the bridge itself.
   */
  datatype Request = Request(target: nat, resultType: nat, args: seq<Arg>, host: Host, nested: seq<Request>)

  /** A native function that was entered, with its arguments. */
  datatype Entry = Entry(target: nat, args: seq<Arg>)

  // ---------------------------------------------------------------------------
  // What a request does
  // ---------------------------------------------------------------------------

  /** The record once libffi has been asked for. */
  function Ensured(ffi: Libffi, found: Libffi): Libffi {
    if ffi.library != 0 then ffi else if Complete(found) then found else EMPTY
  }

  /** The record at the time the request is decided. */
  function Decided(ffi: Libffi, r: Request): Libffi {
    if r.target == 0 || |r.args| > MAX_ARGS then ffi else Ensured(ffi, r.host.found)
  }

  function Status(ffi: Libffi, r: Request): int {
    if r.target == 0 then NULL_SYMBOL
    else if |r.args| > MAX_ARGS then TOO_MANY_ARGS
    else if Decided(ffi, r).library == 0 then LIBFFI_UNAVAILABLE
    else if !TypesResolve(Decided(ffi, r), r.resultType, r.args) then UNSUPPORTED_TYPE
    else if r.host.prepFails then PREP_FAILED
    else OK
  }

  /** The record after a request and all that it nests, and the native functions entered, in order. */
  function Called(ffi: Libffi, r: Request): (Libffi, seq<Entry>)
    decreases r, 1
  {
    if Status(ffi, r) != OK then (Decided(ffi, r), [])
    else
      var (after, entries) := CalledFirst(Decided(ffi, r), r, |r.nested|);
      (after, [Entry(r.target, r.args)] + entries)
  }

  /** The same for the first `k` requests that `r` nests. */
  function CalledFirst(ffi: Libffi, r: Request, k: nat): (Libffi, seq<Entry>)
    requires k <= |r.nested|
    decreases r, 0, k
  {
    if k == 0 then (ffi, [])
    else
      var (before, first) := CalledFirst(ffi, r, k - 1);
      var (after, last) := Called(before, r.nested[k - 1]);
      (after, first + last)
  }

  class Bridge {
    var lastError: int
    var libffi: Libffi
    /** The native functions entered so far. */
    var entered: seq<Entry>

    predicate Valid()
      reads this
    {
      Usable(libffi)
    }

    constructor ()
      ensures Valid() && lastError == OK && libffi == EMPTY && entered == []
    {
      lastError, libffi, entered := OK, EMPTY, [];
    }

    /** Loads libffi on first use; any of its symbols may turn out to be missing. */
    method EnsureLibffi(found: Libffi) returns (ok: bool)
      requires Valid()
      modifies this`lastError, this`libffi
      ensures Valid() && libffi == Ensured(old(libffi), found)
      ensures ok <==> old(libffi).library != 0 ||
                      (found.library != 0 && found.prepCif != 0 && found.call != 0 && found.types[PTR_TAG] != 0)
      ensures ok <==> libffi.library != 0
      ensures if ok then lastError == old(lastError) else lastError == LIBFFI_UNAVAILABLE
      ensures old(libffi).library != 0 ==> libffi == old(libffi)
    {
      if libffi.library != 0 {
        return true;
      }
      if found.library == 0 {
        lastError := LIBFFI_UNAVAILABLE;
        return false;
      }
      libffi := found;
      if libffi.prepCif == 0 || libffi.call == 0 || libffi.types[PTR_TAG] == 0 {
        libffi := EMPTY;
        lastError := LIBFFI_UNAVAILABLE;
        return false;
      }
      return true;
    }

    /** `kira_dynamic_ffi_call`; the native function may call back into the bridge before it returns. */
    method FfiCall(r: Request) returns (status: int)
      requires Valid()
      modifies this
      ensures Valid() && lastError == status && status == Status(old(libffi), r)
      ensures libffi == Called(old(libffi), r).0
      ensures entered == old(entered) + Called(old(libffi), r).1
      ensures status == OK <==> |entered| > |old(entered)|
      ensures status == OK ==> old(entered) + [Entry(r.target, r.args)] <= entered
      ensures status == OK && r.nested == [] ==> entered == old(entered) + [Entry(r.target, r.args)]
      ensures status != OK ==> entered == old(entered)
      ensures status == NULL_SYMBOL <==> r.target == 0
      ensures status == TOO_MANY_ARGS <==> r.target != 0 && |r.args| > MAX_ARGS
      ensures status == LIBFFI_UNAVAILABLE <==> r.target != 0 && |r.args| <= MAX_ARGS && libffi.library == 0
      ensures status == UNSUPPORTED_TYPE <==>
              r.target != 0 && |r.args| <= MAX_ARGS && libffi.library != 0 &&
              !TypesResolve(libffi, r.resultType, r.args)
      ensures OK <= status <= TOO_MANY_ARGS
      ensures old(libffi).library != 0 ==> libffi == old(libffi)
      decreases r, 1
    {
      if r.target == 0 {
        lastError := NULL_SYMBOL;
        return lastError;
      }
      if |r.args| > MAX_ARGS {
        lastError := TOO_MANY_ARGS;
        return lastError;
      }
      var loaded := EnsureLibffi(r.host.found);
      if !loaded {
        return lastError;
      }
      if FfiType(libffi, r.resultType) == 0 {
        lastError := UNSUPPORTED_TYPE;
        return lastError;
      }
      for i := 0 to |r.args|
        invariant forall j | 0 <= j < i :: FfiType(libffi, r.args[j].tag) != 0
      {
        if FfiType(libffi, r.args[i].tag) == 0 {
          lastError := UNSUPPORTED_TYPE;
          return lastError;
        }
      }
      if r.host.prepFails {
        lastError := PREP_FAILED;
        return lastError;
      }
      entered := entered + [Entry(r.target, r.args)];
      Native(r);
      lastError := OK;
      return OK;
    }

    /** What the native function does: any sequence of requests, each of which may nest further ones. */
    method Native(r: Request)
      requires Valid()
      modifies this
      ensures Valid()
      ensures libffi == CalledFirst(old(libffi), r, |r.nested|).0
      ensures entered == old(entered) + CalledFirst(old(libffi), r, |r.nested|).1
      ensures old(libffi).library != 0 ==> libffi == old(libffi)
      decreases r, 0
    {
      var i := 0;
      while i < |r.nested|
        invariant 0 <= i <= |r.nested|
        invariant Valid() && libffi == CalledFirst(old(libffi), r, i).0
        invariant entered == old(entered) + CalledFirst(old(libffi), r, i).1
        invariant old(libffi).library != 0 ==> libffi == old(libffi)
      {
        var _ := FfiCall(r.nested[i]);
        i := i + 1;
      }
    }

    /** Invokes what a builder holds; without a builder there is nothing to call. */
    method Invoke(call: Call?, target: nat, resultType: nat, host: Host, nested: seq<Request>) returns (status: int)
      requires Valid() && (call != null ==> call.Valid())
      modifies this
      ensures Valid() && lastError == status
      ensures call == null ==> status == NULL_SYMBOL && libffi == old(libffi) && entered == old(entered)
      ensures call != null ==>
                var r := Request(target, resultType, old(call.Contents()), host, nested);
                && status == Status(old(libffi), r) && libffi == Called(old(libffi), r).0
                && entered == old(entered) + Called(old(libffi), r).1
      ensures status == OK <==> |entered| > |old(entered)|
      ensures status == NULL_SYMBOL <==> call == null || target == 0
      ensures status == OK ==> old(entered) + [Entry(target, old(call.Contents()))] <= entered
      ensures status == OK && nested == [] ==> entered == old(entered) + [Entry(target, old(call.Contents()))]
      ensures status != TOO_MANY_ARGS
      ensures old(libffi).library != 0 ==> libffi == old(libffi)
    {
      if call == null {
        lastError := NULL_SYMBOL;
        return lastError;
      }
      var args := [];
      for i := 0 to call.count
        invariant args == call.Contents()[..i]
      {
        args := args + [Arg(call.types[i], call.values[i])];
      }
      assert args == call.Contents();
      status := FfiCall(Request(target, resultType, args, host, nested));
    }
  }

  // ---------------------------------------------------------------------------
  // Which functions are entered
  // ---------------------------------------------------------------------------

  /** With this library loaded the request succeeds. */
  predicate Accepted(ffi: Libffi, r: Request) {
    r.target != 0 && |r.args| <= 32 && TypesResolve(ffi, r.resultType, r.args) && !r.host.prepFails
  }

  /** The numbers that callers see, and when. */
  lemma StatusExactly(ffi: Libffi, r: Request)
    ensures var now := Decided(ffi, r);
            match Status(ffi, r)
            case 0 => now.library != 0 && Accepted(now, r)
            case 1 => r.target == 0
            case 2 => r.target != 0 && |r.args| <= 32 && now.library == 0
            case 3 => r.target != 0 && |r.args| <= 32 && now.library != 0 && !TypesResolve(now, r.resultType, r.args)
            case 4 => now.library != 0 && Accepted(now, r.(host := r.host.(prepFails := false))) && r.host.prepFails
            case 5 => r.target != 0 && |r.args| > 32
            case _ => false
  {
  }

  /** Every request of `rs` that succeeds, before the successful ones among those that it nests. */
  function Preorder(ffi: Libffi, rs: seq<Request>): seq<Entry> {
    if rs == [] then []
    else
      (if Accepted(ffi, rs[0]) then [Entry(rs[0].target, rs[0].args)] + Preorder(ffi, rs[0].nested) else [])
      + Preorder(ffi, rs[1..])
  }

  lemma {:induction false} PreorderConcat(ffi: Libffi, a: seq<Request>, b: seq<Request>)
    ensures Preorder(ffi, a + b) == Preorder(ffi, a) + Preorder(ffi, b)
  {
    if a == [] {
      assert a + b == b;
    } else {
      assert (a + b)[0] == a[0] && (a + b)[1..] == a[1..] + b;
      PreorderConcat(ffi, a[1..], b);
    }
  }

  lemma PreorderOne(ffi: Libffi, r: Request)
    ensures Preorder(ffi, [r]) ==
            if Accepted(ffi, r) then [Entry(r.target, r.args)] + Preorder(ffi, r.nested) else []
  {
    assert [r][1..] == [];
    assert Preorder(ffi, []) == [];
  }

  /**
   Exactly the accepted requests enter their functions, each once, before what it nests and in order; and
   once a library is loaded it stays.
   */
  lemma {:induction false} EnteredOnceInOrder(ffi: Libffi, r: Request)
    requires Usable(ffi)
    ensures var now := Decided(ffi, r);
            && Usable(now) && Called(ffi, r).0 == now
            && Called(ffi, r).1 == if now.library == 0 then [] else Preorder(now, [r])
    decreases r, 1
  {
    var now := Decided(ffi, r);
    PreorderOne(now, r);
    if Status(ffi, r) == OK {
      NestedInOrder(now, r, |r.nested|);
      assert r.nested[..|r.nested|] == r.nested;
    }
  }

  lemma {:induction false} NestedInOrder(ffi: Libffi, r: Request, k: nat)
    requires Usable(ffi) && ffi.library != 0 && k <= |r.nested|
    ensures CalledFirst(ffi, r, k) == (ffi, Preorder(ffi, r.nested[..k]))
    decreases r, 0, k
  {
    if k > 0 {
      NestedInOrder(ffi, r, k - 1);
      EnteredOnceInOrder(ffi, r.nested[k - 1]);
      assert r.nested[..k] == r.nested[..k - 1] + [r.nested[k - 1]];
      PreorderConcat(ffi, r.nested[..k - 1], [r.nested[k - 1]]);
    }
  }
}
