/** What holds over every run of the callback registry. */
module CallbackTheorems {
  import opened CallbackRegistry

  // ---------------------------------------------------------------------------
  // All runs: a removed id stays removed
  // ---------------------------------------------------------------------------

  predicate Numbered(s: State) {
    s.nextId > 0 && forall id | id in s.callbacks :: id < s.nextId
  }

  /** An id that was handed out and no longer resolves. */
  predicate Removed(s: State, id: Id) {
    id < s.nextId && id !in s.callbacks
  }

  lemma StepKeepsRemoved(s: State, op: Op)
    requires Numbered(s)
    ensures Numbered(Apply(s, op)) && s.nextId <= Apply(s, op).nextId
    ensures forall id :: Removed(s, id) ==> Removed(Apply(s, op), id)
  {
  }

  /** Ids are never reused: once removed, an id resolves at no later point of any run whatever. */
  lemma {:induction false} RemovedForGood(s: State, ops: seq<Op>, id: Id)
    requires Numbered(s) && Removed(s, id)
    ensures Numbered(Run(s, ops)) && Removed(Run(s, ops), id)
    decreases |ops|
  {
    if ops != [] {
      StepKeepsRemoved(s, ops[0]);
      RemovedForGood(Apply(s, ops[0]), ops[1..], id);
    }
  }

  /** The operations that are meant to remove an id do so. */
  lemma RemovalRemoves(s: State, id: Id)
    requires Numbered(s) && id in s.callbacks
    ensures Removed(Apply(s, Remove(id)), id) && Removed(Apply(s, ClearAll), id)
    ensures s.firing == Some(id) ==> Removed(Apply(s, FireEnd), id)
  {
  }

  /** As long as an id resolves, it resolves to the function that it was handed out for. */
  lemma {:induction false} RecordsNeverChange(s: State, ops: seq<Op>, id: Id)
    requires Numbered(s) && id in s.callbacks && id in Run(s, ops).callbacks
    ensures Run(s, ops).callbacks[id] == s.callbacks[id]
    decreases |ops|
  {
    if ops != [] {
      var s' := Apply(s, ops[0]);
      StepKeepsRemoved(s, ops[0]);
      StepKeepsRecords(s, ops[0]);
      if id !in s'.callbacks {
        RemovedForGood(s', ops[1..], id);
        assert false;
      }
      RecordsNeverChange(s', ops[1..], id);
    }
  }

  lemma StepKeepsRecords(s: State, op: Op)
    requires Numbered(s)
    ensures forall id | id in s.callbacks && id in Apply(s, op).callbacks ::
              Apply(s, op).callbacks[id] == s.callbacks[id]
  {
  }

  // ---------------------------------------------------------------------------
  // All runs: nothing else removes an id
  // ---------------------------------------------------------------------------

  /** The step takes `id` out of the registry: it is removed, all are, or its own timer has run. */
  predicate Removes(s: State, op: Op, id: Id) {
    op == Remove(id) || op == ClearAll || (op == FireEnd && s.firing == Some(id))
  }

  predicate RemovedDuring(s: State, ops: seq<Op>, id: Id)
    decreases |ops|
  {
    ops != [] && (Removes(s, ops[0], id) || RemovedDuring(Apply(s, ops[0]), ops[1..], id))
  }

  lemma StepResolves(s: State, op: Op, id: Id)
    requires Numbered(s) && id in s.callbacks
    ensures id in Apply(s, op).callbacks <==> !Removes(s, op, id)
    ensures !Removes(s, op, id) ==> Apply(s, op).callbacks[id] == s.callbacks[id]
  {
  }

  /** Over any run whatever, an id goes on resolving to its record exactly until one of those steps. */
  lemma {:induction false} ResolvesUntilRemoved(s: State, ops: seq<Op>, id: Id)
    requires Numbered(s) && id in s.callbacks
    ensures id in Run(s, ops).callbacks <==> !RemovedDuring(s, ops, id)
    ensures !RemovedDuring(s, ops, id) ==> Run(s, ops).callbacks[id] == s.callbacks[id]
    decreases |ops|
  {
    hide Apply, Removes;
    if ops != [] {
      var s' := Apply(s, ops[0]);
      StepKeepsRemoved(s, ops[0]);
      StepResolves(s, ops[0], id);
      if id in s'.callbacks {
        ResolvesUntilRemoved(s', ops[1..], id);
      } else {
        RemovedForGood(s', ops[1..], id);
      }
    }
  }

  // ---------------------------------------------------------------------------
  // Runs that use each id for one timer or one listener
  // ---------------------------------------------------------------------------

  /** What ties the registry to the browser. */
  ghost predicate Consistent(s: State) {
    && Numbered(s)
    && s.timers.Keys <= s.callbacks.Keys && s.events.Keys <= s.callbacks.Keys
    && s.timers.Keys !! s.events.Keys
    && (forall h | h in s.pending :: h < s.nextHandle && s.pending[h] in s.timers && s.timers[s.pending[h]] == h)
    && (forall id | id in s.timers ::
          s.timers[id] < s.nextHandle && (Scheduled(s, id) || s.firing == Some(id)))
    && (forall l | l in s.attached ::
          l < s.nextListener && s.attached[l] in s.events && s.events[s.attached[l]].listener == l)
    && (forall id | id in s.events :: Attached(s, id))
    && (s.firing.Some? ==> FiringAlone(s, s.firing.value))
  }

  predicate Scheduled(s: State, id: Id)
    requires id in s.timers
  {
    s.timers[id] in s.pending && s.pending[s.timers[id]] == id
  }

  predicate Attached(s: State, id: Id)
    requires id in s.events
  {
    s.events[id].listener in s.attached && s.attached[s.events[id].listener] == id
  }

  /** The id whose timer is firing is in no other use. */
  ghost predicate FiringAlone(s: State, id: Id) {
    id < s.nextId && id !in s.events && (id in s.timers ==> s.timers[id] !in s.pending)
  }

  /** The id is registered and not yet used for a timer or a listener. */
  predicate Unused(s: State, id: Id) {
    id in s.callbacks && id !in s.timers && id !in s.events && s.firing != Some(id)
  }

  /** Timers and listeners are created from functions, or from ids that nothing uses yet. */
  predicate Safe(s: State, op: Op) {
    match op
    case SetTimer(ById(id)) => Unused(s, id)
    case AddEvent(_, _, ById(id)) => Unused(s, id)
    case _ => true
  }

  predicate SafeRun(s: State, ops: seq<Op>)
    decreases |ops|
  {
    ops == [] || (Safe(s, ops[0]) && SafeRun(Apply(s, ops[0]), ops[1..]))
  }

  /** Whatever a timer or listener is created from, it gets an id that nothing uses yet. */
  lemma ResolvedUnused(s: State, source: Source, tag: string)
    requires Consistent(s) && (source.ById? ==> Unused(s, source.id))
    ensures var (s', id) := s.Resolved(source, tag);
            Consistent(s') && Unused(s', id)
  {
  }

  lemma RegisterConsistent(s: State, fn: nat, tag: string)
    requires Consistent(s)
    ensures Consistent(s.Register(fn, tag))
  {
  }

  function WithTimer(s: State, id: Id): State {
    s.(pending := s.pending[s.nextHandle := id], timers := s.timers[id := s.nextHandle],
       nextHandle := s.nextHandle + 1)
  }

  lemma WithTimerConsistent(s: State, id: Id)
    requires Consistent(s) && Unused(s, id)
    ensures Consistent(WithTimer(s, id))
  {
  }

  function WithListener(s: State, id: Id, node: nat, eventName: string): State {
    s.(attached := s.attached[s.nextListener := id],
       events := s.events[id := Binding(node, eventName, s.nextListener)],
       nextListener := s.nextListener + 1)
  }

  lemma WithListenerConsistent(s: State, id: Id, node: nat, eventName: string)
    requires Consistent(s) && Unused(s, id)
    ensures Consistent(WithListener(s, id, node, eventName))
  {
  }

  lemma ClearTimerConsistent(s: State, id: Id)
    requires Consistent(s)
    ensures Consistent(s.ClearTimer(id))
  {
  }

  lemma RemoveEventConsistent(s: State, id: Id)
    requires Consistent(s)
    ensures Consistent(s.RemoveEvent(id))
  {
  }

  lemma StepConsistent(s: State, op: Op)
    requires Consistent(s) && Safe(s, op)
    ensures Consistent(Apply(s, op))
  {
    hide Consistent, Unused;
    var s' := Apply(s, op);
    match op
    case SetTimer(source) =>
      ResolvedUnused(s, source, "timer");
      WithTimerConsistent(s.Resolved(source, "timer").0, s.Resolved(source, "timer").1);
    case AddEvent(node, eventName, source) =>
      ResolvedUnused(s, source, eventName);
      WithListenerConsistent(s.Resolved(source, eventName).0, s.Resolved(source, eventName).1, node, eventName);
    case ClearTimer(id) => ClearTimerConsistent(s, id);
    case RemoveEvent(id) => RemoveEventConsistent(s, id);
    case Remove(id) =>
      ClearTimerConsistent(s, id);
      RemoveEventConsistent(s.ClearTimer(id), id);
      ForgetConsistent(s.ClearTimer(id).RemoveEvent(id), id);
    case Register(fn, tag) => RegisterConsistent(s, fn, tag);
    case ClearAll => ClearAllConsistent(s);
    case FireBegin(handle) => FireBeginConsistent(s, handle);
    case FireEnd => FireEndConsistent(s);
    case Dispatch(_) =>
  }

  lemma ForgetConsistent(s: State, id: Id)
    requires Consistent(s) && id !in s.timers && id !in s.events
    ensures Consistent(s.Forget(id))
  {
  }

  lemma ClearAllConsistent(s: State)
    requires Consistent(s)
    ensures var s' := Apply(s, ClearAll);
            Consistent(s') && s'.pending == map[] && s'.attached == map[]
  {
  }

  lemma FireBeginConsistent(s: State, handle: Handle)
    requires Consistent(s)
    ensures Consistent(Apply(s, FireBegin(handle)))
  {
  }

  lemma FireEndConsistent(s: State)
    requires Consistent(s)
    ensures Consistent(Apply(s, FireEnd))
  {
  }

  /** No step of a safe run, callbacks that re-enter the registry included, hits an id that is not registered. */
  lemma {:induction false} SafeRunNeverFails(s: State, ops: seq<Op>)
    requires Consistent(s) && SafeRun(s, ops)
    ensures Consistent(Run(s, ops)) && !RunFails(s, ops)
    decreases |ops|
  {
    if ops != [] {
      StepConsistent(s, ops[0]);
      SafeRunNeverFails(Apply(s, ops[0]), ops[1..]);
    }
  }

  // ---------------------------------------------------------------------------
  // Whom a step concerns
  // ---------------------------------------------------------------------------

  /** The step is about `id`: it names it, hands it out, fires its timer, or clears everything. */
  predicate Concerns(s: State, op: Op, id: Id) {
    match op
    case Register(_, _) => id == s.nextId
    case Remove(x) => id == x
    case SetTimer(source) => id == if source.ById? then source.id else s.nextId
    case ClearTimer(x) => id == x
    case AddEvent(_, _, source) => id == if source.ById? then source.id else s.nextId
    case RemoveEvent(x) => id == x
    case ClearAll => true
    case FireBegin(handle) => handle in s.pending && s.firing.None? && id == s.pending[handle]
    case FireEnd => s.firing == Some(id)
    case Dispatch(_) => false
  }

  predicate ConcernedDuring(s: State, ops: seq<Op>, id: Id)
    decreases |ops|
  {
    ops != [] && (Concerns(s, ops[0], id) || ConcernedDuring(Apply(s, ops[0]), ops[1..], id))
  }

  ghost predicate SameEntry<K, V>(a: map<K, V>, b: map<K, V>, key: K) {
    (key in a <==> key in b) && (key in a ==> a[key] == b[key])
  }

  /** Registration, timer, listener, pending timeouts and attached listeners of the id are the same. */
  ghost predicate SameFor(s: State, s': State, id: Id) {
    && SameEntry(s.callbacks, s'.callbacks, id) && SameEntry(s.timers, s'.timers, id)
    && SameEntry(s.events, s'.events, id) && (s.firing == Some(id) <==> s'.firing == Some(id))
    && (forall h :: (h in s.pending && s.pending[h] == id) <==> (h in s'.pending && s'.pending[h] == id))
    && (forall l :: (l in s.attached && s.attached[l] == id) <==> (l in s'.attached && s'.attached[l] == id))
  }

  lemma SameForTransitive(a: State, b: State, c: State, id: Id)
    requires SameFor(a, b, id) && SameFor(b, c, id)
    ensures SameFor(a, c, id)
  {
  }

  lemma ClearTimerLeaves(s: State, x: Id, id: Id)
    requires Consistent(s) && x != id
    ensures SameFor(s, s.ClearTimer(x), id)
  {
  }

  lemma RemoveEventLeaves(s: State, x: Id, id: Id)
    requires Consistent(s) && x != id
    ensures SameFor(s, s.RemoveEvent(x), id)
  {
  }

  lemma RegistryLeaves(s: State, x: Id, id: Id, fn: nat, tag: string)
    ensures x != id ==> SameFor(s, s.Forget(x), id)
    ensures s.nextId != id ==> SameFor(s, s.Register(fn, tag), id)
    ensures SameFor(s, s, id)
  {
  }

  lemma WithTimerLeaves(s: State, x: Id, id: Id)
    requires Consistent(s) && x != id
    ensures SameFor(s, WithTimer(s, x), id)
  {
  }

  lemma WithListenerLeaves(s: State, x: Id, id: Id, node: nat, eventName: string)
    requires Consistent(s) && x != id
    ensures SameFor(s, WithListener(s, x, node, eventName), id)
  {
  }

  lemma FiringLeaves(s: State, op: Op, id: Id)
    requires Consistent(s) && (op.FireBegin? || op.FireEnd?) && !Concerns(s, op, id)
    ensures SameFor(s, Apply(s, op), id)
  {
  }

  lemma ResolvedLeaves(s: State, source: Source, tag: string, id: Id)
    requires id != if source.ById? then source.id else s.nextId
    ensures SameFor(s, s.Resolved(source, tag).0, id) && s.Resolved(source, tag).1 != id
  {
    RegistryLeaves(s, id, id, if source.Function? then source.fn else 0, tag);
  }

  lemma StepLeavesOthers(s: State, op: Op, id: Id)
    requires Consistent(s) && Safe(s, op) && !Concerns(s, op, id)
    ensures SameFor(s, Apply(s, op), id)
  {
    hide Consistent, Unused, SameFor;
    var s' := Apply(s, op);
    match op
    case Register(fn, tag) => RegistryLeaves(s, id, id, fn, tag);
    case Remove(x) =>
      var a, b := s.ClearTimer(x), s.ClearTimer(x).RemoveEvent(x);
      ClearTimerLeaves(s, x, id);
      ClearTimerConsistent(s, x);
      RemoveEventLeaves(a, x, id);
      RegistryLeaves(b, x, id, 0, "");
      SameForTransitive(s, a, b, id);
      SameForTransitive(s, b, s', id);
    case SetTimer(source) =>
      var (a, x) := s.Resolved(source, "timer");
      ResolvedLeaves(s, source, "timer", id);
      ResolvedUnused(s, source, "timer");
      WithTimerLeaves(a, x, id);
      SameForTransitive(s, a, s', id);
    case AddEvent(node, eventName, source) =>
      var (a, x) := s.Resolved(source, eventName);
      ResolvedLeaves(s, source, eventName, id);
      ResolvedUnused(s, source, eventName);
      WithListenerLeaves(a, x, id, node, eventName);
      SameForTransitive(s, a, s', id);
    case ClearTimer(x) => ClearTimerLeaves(s, x, id);
    case RemoveEvent(x) => RemoveEventLeaves(s, x, id);
    case FireBegin(_) => FiringLeaves(s, op, id);
    case FireEnd => FiringLeaves(s, op, id);
    case Dispatch(_) => RegistryLeaves(s, id, id, 0, "");
  }

  /** A safe run leaves everything about an id as it was, unless some step of it concerns that id. */
  lemma {:induction false} OthersUndisturbed(s: State, ops: seq<Op>, id: Id)
    requires Consistent(s) && SafeRun(s, ops) && !ConcernedDuring(s, ops, id)
    ensures SameFor(s, Run(s, ops), id)
    decreases |ops|
  {
    hide Apply, Consistent, Safe, Concerns;
    if ops != [] {
      StepLeavesOthers(s, ops[0], id);
      StepConsistent(s, ops[0]);
      OthersUndisturbed(Apply(s, ops[0]), ops[1..], id);
    }
  }

  lemma InitiallyConsistent()
    ensures Consistent(INITIAL)
  {
  }

  /** Two steps that no condition is attached to. */
  lemma RunTwo(s: State, a: Op, b: Op)
    requires !a.SetTimer? && !a.AddEvent? && !b.SetTimer? && !b.AddEvent?
    requires Fails(Apply(s, a), b)
    ensures SafeRun(s, [a, b]) && RunFails(s, [a, b])
  {
  }

  lemma RunFour(s: State, a: Op, b: Op, c: Op, d: Op)
    requires !a.SetTimer? && !a.AddEvent? && !b.SetTimer? && !b.AddEvent?
    requires !c.SetTimer? && !c.AddEvent? && !d.SetTimer? && !d.AddEvent?
    requires Fails(Apply(Apply(Apply(s, a), b), c), d)
    ensures SafeRun(s, [a, b, c, d]) && RunFails(s, [a, b, c, d])
  {
    hide Apply, Fails;
    RunTwo(Apply(Apply(s, a), b), c, d);
    assert [a, b, c, d][1..] == [b, c, d] && [b, c, d][1..] == [c, d];
    assert SafeRun(Apply(s, a), [b, c, d]) && RunFails(Apply(s, a), [b, c, d]);
  }

  /** The state once the running callback, then the timer `h`, has run to its end. */
  function AfterFiring(s: State, h: Handle): State {
    Apply(Apply(Apply(s, FireEnd), FireBegin(h)), FireEnd)
  }

  lemma FiringEnds(s: State, h: Handle)
    requires h in s.pending
    ensures var s' := AfterFiring(s, h);
            && s'.firing.None? && s.pending[h] !in s'.callbacks
            && s'.pending == s.pending - {h} && s'.attached == s.attached
  {
  }

  /** A pending timer or attached listener of an id that is not registered, once no callback is running. */
  lemma OrphanFails(s: State, op: Op)
    requires s.firing.None?
    requires op.FireBegin? ==> op.handle in s.pending && s.pending[op.handle] !in s.callbacks
    requires op.Dispatch? ==> op.listener in s.attached && s.attached[op.listener] !in s.callbacks
    requires op.FireBegin? || op.Dispatch?
    ensures Fails(s, op)
  {
  }

  /** Two uses of one id: when the timer `h` of the id has fired, whatever else invokes the id fails. */
  lemma SecondUseFails(s: State, h: Handle, other: Op) returns (ops: seq<Op>)
    requires h in s.pending
    requires (other.FireBegin? && other.handle != h && other.handle in s.pending &&
              s.pending[other.handle] == s.pending[h]) ||
             (other.Dispatch? && other.listener in s.attached && s.attached[other.listener] == s.pending[h])
    ensures SafeRun(s, ops) && RunFails(s, ops)
  {
    ops := [FireEnd, FireBegin(h), FireEnd, other];
    FiringEnds(s, h);
    hide Apply;
    OrphanFails(AfterFiring(s, h), other);
    RunFour(s, FireEnd, FireBegin(h), FireEnd, other);
  }

  /** A use of an id that is not registered, or is about to be removed by the running timer. */
  lemma DeadUseFails(s: State, id: Id, other: Op) returns (ops: seq<Op>)
    requires id !in s.callbacks || s.firing == Some(id)
    requires (other.FireBegin? && other.handle in s.pending && s.pending[other.handle] == id) ||
             (other.Dispatch? && other.listener in s.attached && s.attached[other.listener] == id)
    ensures SafeRun(s, ops) && RunFails(s, ops)
  {
    ops := [FireEnd, other];
    RunTwo(s, FireEnd, other);
  }

  lemma UnsafeTimerCanFail(s: State, id: Id) returns (ops: seq<Op>)
    requires Consistent(s) && !Unused(s, id)
    ensures var s' := Apply(s, SetTimer(ById(id)));
            SafeRun(s', ops) && RunFails(s', ops)
  {
    var s' := Apply(s, SetTimer(ById(id)));
    var h := s.nextHandle;
    if id !in s.callbacks || s.firing == Some(id) {
      ops := DeadUseFails(s', id, FireBegin(h));
    } else if id in s.timers {
      assert Scheduled(s, id);
      ops := SecondUseFails(s', s.timers[id], FireBegin(h));
    } else {
      assert Attached(s, id);
      ops := SecondUseFails(s', h, Dispatch(s.events[id].listener));
    }
  }

  lemma UnsafeListenerCanFail(s: State, node: nat, eventName: string, id: Id) returns (ops: seq<Op>)
    requires Consistent(s) && !Unused(s, id)
    ensures var s' := Apply(s, AddEvent(node, eventName, ById(id)));
            SafeRun(s', ops) && RunFails(s', ops)
  {
    var s' := Apply(s, AddEvent(node, eventName, ById(id)));
    var l := s.nextListener;
    if id !in s.callbacks || s.firing == Some(id) {
      ops := DeadUseFails(s', id, Dispatch(l));
    } else if id in s.timers {
      assert Scheduled(s, id);
      ops := SecondUseFails(s', s.timers[id], Dispatch(l));
    } else {
      assert Attached(s, id);
      ops := [Remove(id), Dispatch(s.events[id].listener)];
      RunTwo(s', Remove(id), Dispatch(s.events[id].listener));
    }
  }

  /** The condition is exact: an unsafe step leaves a run that goes on to fail with no other unsafe step. */
  lemma UnsafeStepCanFail(s: State, op: Op) returns (ops: seq<Op>)
    requires Consistent(s) && !Safe(s, op)
    ensures SafeRun(Apply(s, op), ops) && RunFails(Apply(s, op), ops)
  {
    match op
    case SetTimer(ById(id)) => ops := UnsafeTimerCanFail(s, id);
    case AddEvent(node, eventName, ById(id)) => ops := UnsafeListenerCanFail(s, node, eventName, id);
  }

  /** Nothing that may follow, itself made of safe steps, can fail. */
  ghost predicate NeverFails(s: State) {
    forall ops | SafeRun(s, ops) :: !RunFails(s, ops)
  }

  /** A step is safe if and only if nothing that follows it, itself safe, can fail. */
  lemma SafetyIsExact(s: State, op: Op)
    requires Consistent(s)
    ensures Safe(s, op) <==> NeverFails(Apply(s, op))
  {
    if Safe(s, op) {
      StepConsistent(s, op);
      forall ops | SafeRun(Apply(s, op), ops)
        ensures !RunFails(Apply(s, op), ops)
      {
        SafeRunNeverFails(Apply(s, op), ops);
      }
    } else {
      var ops := UnsafeStepCanFail(s, op);
      assert SafeRun(Apply(s, op), ops) && RunFails(Apply(s, op), ops);
    }
  }
}
