/**
 The browser callback registry: callbacks by id, and the timers and event listeners that invoke them.
 The browser's side (pending timeouts, attached listeners) is part of the state, because that is where
 an invocation of an id that is no longer registered would come from.
 */
module CallbackRegistry {

  type Id = nat
  type Handle = nat
  type Listener = nat

  datatype Option<+T> = None | Some(value: T)

  /** A registered function; its code is opaque, its effects are the operations that it performs. */
  datatype Record = Record(fn: nat, tag: string)

  datatype Binding = Binding(node: nat, eventName: string, listener: Listener)

  /** What a caller hands to `setTimer` and `addEvent`: a function, or an id. */
  datatype Source = Function(fn: nat) | ById(id: Id)

  datatype State = State(
    nextId: Id,
    callbacks: map<Id, Record>,
    timers: map<Id, Handle>,
    events: map<Id, Binding>,
    nextHandle: Handle,
    pending: map<Handle, Id>,
    nextListener: Listener,
    attached: map<Listener, Id>,
    firing: Option<Id>)
  {
    function Register(fn: nat, tag: string): State {
      this.(nextId := nextId + 1, callbacks := callbacks[nextId := Record(fn, tag)])
    }

    function Resolved(source: Source, tag: string): (State, Id) {
      match source
      case Function(fn) => (Register(fn, tag), nextId)
      case ById(id) => (this, id)
    }

    function ClearTimer(id: Id): State {
      if id !in timers then this
      else this.(pending := pending - {timers[id]}, timers := timers - {id})
    }

    function RemoveEvent(id: Id): State {
      if id !in events then this
      else this.(attached := attached - {events[id].listener}, events := events - {id})
    }

    function Forget(id: Id): State {
      this.(callbacks := callbacks - {id})
    }
  }

  const INITIAL := State(1, map[], map[], map[], 1, map[], 1, map[], None)

  /**
   One step of a run.  A timer fires in two steps with any operations between them, because its callback
   may call the registry; the browser fires no timer while another one's callback is still running.
   */
  datatype Op =
    | Register(fn: nat, tag: string)
    | Remove(id: Id)
    | SetTimer(source: Source)
    | ClearTimer(id: Id)
    | AddEvent(node: nat, eventName: string, source: Source)
    | RemoveEvent(id: Id)
    | ClearAll
    | FireBegin(handle: Handle)
    | FireEnd
    | Dispatch(listener: Listener)

  function Apply(s: State, op: Op): State {
    match op
    case Register(fn, tag) => s.Register(fn, tag)
    case Remove(id) => s.ClearTimer(id).RemoveEvent(id).Forget(id)
    case SetTimer(source) =>
      var (s', id) := s.Resolved(source, "timer");
      s'.(pending := s'.pending[s'.nextHandle := id],
          timers := s'.timers[id := s'.nextHandle],
          nextHandle := s'.nextHandle + 1)
    case ClearTimer(id) => s.ClearTimer(id)
    case AddEvent(node, eventName, source) =>
      var (s', id) := s.Resolved(source, eventName);
      s'.(attached := s'.attached[s'.nextListener := id],
          events := s'.events[id := Binding(node, eventName, s'.nextListener)],
          nextListener := s'.nextListener + 1)
    case RemoveEvent(id) => s.RemoveEvent(id)
    case ClearAll =>
      s.(pending := s.pending - s.timers.Values,
         attached := s.attached - Listeners(s.events),
         timers := map[], events := map[], callbacks := map[])
    case FireBegin(handle) =>
      if handle !in s.pending || s.firing.Some? then s
      else s.(pending := s.pending - {handle}, firing := Some(s.pending[handle]))
    case FireEnd =>
      if s.firing.None? then s
      else s.(timers := s.timers - {s.firing.value}, firing := None).Forget(s.firing.value)
    case Dispatch(_) => s
  }

  function Listeners(events: map<Id, Binding>): set<Listener> {
    set id | id in events :: events[id].listener
  }

  /** The step invokes an id that is not registered: the registry throws. */
  predicate Fails(s: State, op: Op) {
    match op
    case FireBegin(handle) => handle in s.pending && s.firing.None? && s.pending[handle] !in s.callbacks
    case Dispatch(listener) => listener in s.attached && s.attached[listener] !in s.callbacks
    case _ => false
  }

  function Run(s: State, ops: seq<Op>): State
    decreases |ops|
  {
    if ops == [] then s else Run(Apply(s, ops[0]), ops[1..])
  }

  predicate RunFails(s: State, ops: seq<Op>)
    decreases |ops|
  {
    ops != [] && (Fails(s, ops[0]) || RunFails(Apply(s, ops[0]), ops[1..]))
  }

  // ---------------------------------------------------------------------------
  // The registry itself
  // ---------------------------------------------------------------------------

  class Registry {
    var nextId: Id
    var callbacks: map<Id, Record>
    var timers: map<Id, Handle>
    var events: map<Id, Binding>
    // The browser
    var nextHandle: Handle
    var pending: map<Handle, Id>
    var nextListener: Listener
    var attached: map<Listener, Id>
    var firing: Option<Id>

    function View(): State
      reads this
    {
      State(nextId, callbacks, timers, events, nextHandle, pending, nextListener, attached, firing)
    }

    constructor ()
      ensures View() == INITIAL
    {
      nextId, callbacks, timers, events := 1, map[], map[], map[];
      nextHandle, pending, nextListener, attached, firing := 1, map[], 1, map[], None;
    }

    method RegisterFn(fn: nat, tag: string) returns (id: Id)
      modifies this
      ensures View() == Apply(old(View()), Register(fn, tag)) && id == old(nextId)
      ensures callbacks == old(callbacks)[id := Record(fn, tag)] && nextId == old(nextId) + 1
      ensures timers == old(timers) && events == old(events) && pending == old(pending) && attached == old(attached)
    {
      id := nextId;
      nextId := nextId + 1;
      callbacks := callbacks[id := Record(fn, tag)];
    }

    /** Whether the id resolves; `invoke` throws when it does not. */
    method Invoke(id: Id) returns (found: bool)
      ensures found <==> id in callbacks
    {
      found := id in callbacks;
    }

    method ClearTimer(id: Id) returns (cleared: bool)
      modifies this`timers, this`pending
      ensures View() == old(View()).ClearTimer(id) && (cleared <==> id in old(timers))
      ensures timers == old(timers) - {id}
      ensures pending == if cleared then old(pending) - {old(timers)[id]} else old(pending)
    {
      if id !in timers {
        return false;
      }
      pending := pending - {timers[id]};
      timers := timers - {id};
      return true;
    }

    method RemoveEvent(id: Id) returns (removed: bool)
      modifies this`events, this`attached
      ensures View() == old(View()).RemoveEvent(id) && (removed <==> id in old(events))
      ensures events == old(events) - {id}
      ensures attached == if removed then old(attached) - {old(events)[id].listener} else old(attached)
    {
      if id !in events {
        return false;
      }
      attached := attached - {events[id].listener};
      events := events - {id};
      return true;
    }

    method Remove(id: Id) returns (removed: bool)
      modifies this
      ensures View() == Apply(old(View()), Op.Remove(id)) && (removed <==> id in old(callbacks))
      ensures callbacks == old(callbacks) - {id} && timers == old(timers) - {id} && events == old(events) - {id}
      ensures pending == if id in old(timers) then old(pending) - {old(timers)[id]} else old(pending)
      ensures attached == if id in old(events) then old(attached) - {old(events)[id].listener} else old(attached)
    {
      var _ := ClearTimer(id);
      var _ := RemoveEvent(id);
      removed := id in callbacks;
      callbacks := callbacks - {id};
    }

    method SetTimer(source: Source) returns (id: Id)
      modifies this
      ensures View() == Apply(old(View()), Op.SetTimer(source))
      ensures timers == old(timers)[id := old(nextHandle)] && nextHandle == old(nextHandle) + 1
      ensures events == old(events) && attached == old(attached) && firing == old(firing)
      ensures pending == old(pending)[timers[id] := id]
      ensures callbacks ==
              if source.Function? then old(callbacks)[id := Record(source.fn, "timer")] else old(callbacks)
      ensures id == if source.ById? then source.id else old(nextId)
    {
      match source {
        case Function(fn) => id := RegisterFn(fn, "timer");
        case ById(given) => id := given;
      }
      var timer := nextHandle;
      nextHandle := nextHandle + 1;
      pending := pending[timer := id];
      timers := timers[id := timer];
    }

    method AddEvent(node: nat, eventName: string, source: Source) returns (id: Id)
      modifies this
      ensures View() == Apply(old(View()), Op.AddEvent(node, eventName, source))
      ensures events == old(events)[id := Binding(node, eventName, old(nextListener))]
      ensures nextListener == old(nextListener) + 1
      ensures timers == old(timers) && pending == old(pending) && firing == old(firing)
      ensures attached == old(attached)[events[id].listener := id]
      ensures callbacks ==
              if source.Function? then old(callbacks)[id := Record(source.fn, eventName)] else old(callbacks)
      ensures id == if source.ById? then source.id else old(nextId)
    {
      match source {
        case Function(fn) => id := RegisterFn(fn, eventName);
        case ById(given) => id := given;
      }
      var listener := nextListener;
      nextListener := nextListener + 1;
      attached := attached[listener := id];
      events := events[id := Binding(node, eventName, listener)];
    }

    method ClearAll()
      modifies this
      ensures View() == Apply(old(View()), Op.ClearAll)
      ensures callbacks == map[] && timers == map[] && events == map[]
      ensures pending == old(pending) - old(timers).Values && attached == old(attached) - Listeners(old(events))
    {
      ClearTimers();
      RemoveEvents();
      callbacks := map[];
    }

    method ClearTimers()
      modifies this`timers, this`pending
      ensures timers == map[] && pending == old(pending) - old(timers).Values
    {
      var keys := timers.Keys;
      while keys != {}
        invariant keys == timers.Keys && timers == old(timers) - (old(timers).Keys - keys)
        invariant pending == old(pending) - (set id | id in old(timers) && id !in keys :: old(timers)[id])
        decreases keys
      {
        var id :| id in keys;
        var _ := ClearTimer(id);
        keys := keys - {id};
      }
      assert (set id | id in old(timers) && id !in keys :: old(timers)[id]) == old(timers).Values;
    }

    method RemoveEvents()
      modifies this`events, this`attached
      ensures events == map[] && attached == old(attached) - Listeners(old(events))
    {
      var keys := events.Keys;
      while keys != {}
        invariant keys == events.Keys && events == old(events) - (old(events).Keys - keys)
        invariant attached == old(attached) - (set id | id in old(events) && id !in keys :: old(events)[id].listener)
        decreases keys
      {
        var id :| id in keys;
        var _ := RemoveEvent(id);
        keys := keys - {id};
      }
      assert (set id | id in old(events) && id !in keys :: old(events)[id].listener) == Listeners(old(events));
    }

    /** The browser calls the closure of a pending timer; it starts by invoking its id. */
    method FireBegin(handle: Handle) returns (found: bool)
      requires handle in pending && firing.None?
      modifies this
      ensures View() == Apply(old(View()), Op.FireBegin(handle))
      ensures found <==> !Fails(old(View()), Op.FireBegin(handle))
      ensures found <==> old(pending)[handle] in callbacks
      ensures pending == old(pending) - {handle} && firing == Some(old(pending)[handle])
      ensures callbacks == old(callbacks) && timers == old(timers) && events == old(events)
    {
      var id := pending[handle];
      pending := pending - {handle};
      firing := Some(id);
      found := Invoke(id);
    }

    /** The `finally` block of the closure, which runs whether or not the callback threw. */
    method FireEnd()
      requires firing.Some?
      modifies this
      ensures View() == Apply(old(View()), Op.FireEnd)
      ensures callbacks == old(callbacks) - {old(firing).value} && timers == old(timers) - {old(firing).value}
      ensures events == old(events) && pending == old(pending) && attached == old(attached)
    {
      timers := timers - {firing.value};
      callbacks := callbacks - {firing.value};
      firing := None;
    }
  }
}
