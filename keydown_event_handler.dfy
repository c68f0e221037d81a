/** The dispatch registry: each key's ordered, append-only list of handler
    actions, handler modules that are loaded at most once, and the press
    pipeline that runs a key's handlers, then the pressed subscribers, and
    turns the first exception into an error notification. */
module KeydownEventService {
  import opened Wrappers
  import opened Lists
  import Keys

  type KeyCode = Keys.KeyCode

  /** Identity of a delegate target: a handler method bound on a module
      instance, or a subscriber of the OnPressed or OnError event. */
  type ActionId = int

  /** Identity of a handler-module type. */
  type ModuleId = int

  /** A public method of a handler module: the keys listed by its
      KeyAttribute (None when it carries none) and the action it becomes. */
  datatype HandlerMethod = HandlerMethod(keys: Option<seq<KeyCode>>, action: ActionId)

  /** A type offered for loading: whether it derives from KeydownEventBase,
      whether it lacks DontAutoRegisterAttribute, and its public methods. */
  datatype Module = Module(id: ModuleId, isSubclass: bool, autoRegister: bool, methods: seq<HandlerMethod>)

  /** The ArgumentException thrown by Load for a type that is not a handler module. */
  datatype LoadError = ArgumentException

  /** One delegate invocation made while a key press is processed. */
  datatype Call =
    | Handler(action: ActionId)
    | Pressed(subscriber: ActionId, key: KeyCode)
    | Error(subscriber: ActionId, key: KeyCode, cause: ActionId)

  // ---------------------------------------------------------------------------
  // Invoking multicast delegates

  /** Invoking a multicast delegate whose invocation list is `targets`, when
      the targets in `throws` raise: the targets run in order and the first
      one that raises ends the invocation. Yields the targets that ran (the
      thrower last) and the thrower, if any. */
  function Invoke(targets: seq<ActionId>, throws: set<ActionId>): (r: (seq<ActionId>, Option<ActionId>))
    ensures r.0 <= targets
    ensures r.1.None? <==> forall i :: 0 <= i < |targets| ==> targets[i] !in throws
    ensures r.1.None? ==> r.0 == targets
    ensures r.1.Some? ==> |r.0| > 0 && r.1.value == r.0[|r.0| - 1] && r.1.value in throws
    ensures forall i :: 0 <= i < |r.0| - 1 ==> r.0[i] !in throws
  {
    if targets == [] then ([], None)
    else if targets[0] in throws then ([targets[0]], Some(targets[0]))
    else
      var rest := Invoke(targets[1..], throws);
      ([targets[0]] + rest.0, rest.1)
  }

  /** The invocation stops exactly at the first target that raises. */
  lemma {:induction false} InvokeStopsAtFirstThrower(targets: seq<ActionId>, throws: set<ActionId>, i: nat)
    requires i < |targets| && targets[i] in throws
    requires forall j :: 0 <= j < i ==> targets[j] !in throws
    ensures Invoke(targets, throws) == (targets[..i + 1], Some(targets[i]))
  {
    if i == 0 {
      assert targets[..1] == [targets[0]];
    } else {
      var rest := targets[1..];
      assert rest[i - 1] == targets[i];
      forall j | 0 <= j < i - 1 ensures rest[j] !in throws {
        assert rest[j] == targets[j + 1];
      }
      InvokeStopsAtFirstThrower(rest, throws, i - 1);
      assert targets[..i + 1] == [targets[0]] + rest[..i];
    }
  }

  function HandlerCalls(ran: seq<ActionId>): seq<Call>
  {
    seq(|ran|, i requires 0 <= i < |ran| => Handler(ran[i]))
  }

  function PressedCalls(notified: seq<ActionId>, key: KeyCode): seq<Call>
  {
    seq(|notified|, i requires 0 <= i < |notified| => Pressed(notified[i], key))
  }

  function ErrorCalls(subscribers: seq<ActionId>, key: KeyCode, cause: ActionId): seq<Call>
  {
    seq(|subscribers|, i requires 0 <= i < |subscribers| => Error(subscribers[i], key, cause))
  }

  /** The delegate invocations of one Press: the key's bound actions, then,
      if none raised, the OnPressed subscribers; the first exception from
      either is caught and handed to every OnError subscriber. */
  function PressCalls(bound: seq<ActionId>, onPressed: seq<ActionId>, onError: seq<ActionId>,
                      key: KeyCode, throws: set<ActionId>): seq<Call>
  {
    var emitted := Invoke(bound, throws);
    if emitted.1.Some? then
      HandlerCalls(emitted.0) + ErrorCalls(onError, key, emitted.1.value)
    else
      var notified := Invoke(onPressed, throws);
      HandlerCalls(emitted.0) + PressedCalls(notified.0, key)
        + (if notified.1.Some? then ErrorCalls(onError, key, notified.1.value) else [])
  }

  /** When nothing raises, every bound action runs in registration order, then
      every pressed subscriber is told of the key, and no error is reported. */
  lemma PressWithoutFailure(bound: seq<ActionId>, onPressed: seq<ActionId>, onError: seq<ActionId>,
                            key: KeyCode, throws: set<ActionId>)
    requires forall i :: 0 <= i < |bound| ==> bound[i] !in throws
    requires forall i :: 0 <= i < |onPressed| ==> onPressed[i] !in throws
    ensures PressCalls(bound, onPressed, onError, key, throws)
            == HandlerCalls(bound) + PressedCalls(onPressed, key)
    ensures forall c :: c in PressCalls(bound, onPressed, onError, key, throws) ==> !c.Error?
  {
  }

  /** When bound action i is the first to raise: the actions up to and
      including it run, the later ones and the pressed subscribers do not,
      and each error subscriber is told once, with that action as cause. */
  lemma PressWithFailingHandler(bound: seq<ActionId>, onPressed: seq<ActionId>, onError: seq<ActionId>,
                                key: KeyCode, throws: set<ActionId>, i: nat)
    requires i < |bound| && bound[i] in throws
    requires forall j :: 0 <= j < i ==> bound[j] !in throws
    ensures PressCalls(bound, onPressed, onError, key, throws)
            == HandlerCalls(bound[..i + 1]) + ErrorCalls(onError, key, bound[i])
    ensures forall c :: c in PressCalls(bound, onPressed, onError, key, throws) ==> !c.Pressed?
  {
    InvokeStopsAtFirstThrower(bound, throws, i);
  }

  /** When the bound actions all complete and pressed subscriber i is the
      first to raise: all actions and the subscribers up to i run, and each
      error subscriber is told once, with that subscriber as cause. */
  lemma PressWithFailingSubscriber(bound: seq<ActionId>, onPressed: seq<ActionId>, onError: seq<ActionId>,
                                   key: KeyCode, throws: set<ActionId>, i: nat)
    requires forall j :: 0 <= j < |bound| ==> bound[j] !in throws
    requires i < |onPressed| && onPressed[i] in throws
    requires forall j :: 0 <= j < i ==> onPressed[j] !in throws
    ensures PressCalls(bound, onPressed, onError, key, throws)
            == HandlerCalls(bound) + PressedCalls(onPressed[..i + 1], key) + ErrorCalls(onError, key, onPressed[i])
  {
    InvokeStopsAtFirstThrower(onPressed, throws, i);
  }

  // ---------------------------------------------------------------------------
  // Bindings and module loading

  /** The actions bound to `key`; an unbound key has none. */
  function Bound(events: map<KeyCode, seq<ActionId>>, key: KeyCode): seq<ActionId>
  {
    if key in events then events[key] else []
  }

  /** The (key, action) pairs one method asks for: one per key of its KeyAttribute. */
  function MethodBindings(m: HandlerMethod): seq<(KeyCode, ActionId)>
  {
    match m.keys
    case None => []
    case Some(ks) => seq(|ks|, i requires 0 <= i < |ks| => (ks[i], m.action))
  }

  /** The pairs a module's methods ask for, method by method, key by key. */
  function Bindings(methods: seq<HandlerMethod>): seq<(KeyCode, ActionId)>
  {
    if methods == [] then []
    else Bindings(methods[..|methods| - 1]) + MethodBindings(methods[|methods| - 1])
  }

  /** A pair is bound by a module exactly when some method of it is annotated
      with that key and becomes that action; unannotated methods bind nothing. */
  lemma {:induction false} BindingsOfMethods(methods: seq<HandlerMethod>, key: KeyCode, action: ActionId)
    ensures (key, action) in Bindings(methods)
            <==> exists i :: 0 <= i < |methods| && methods[i].keys.Some?
                            && key in methods[i].keys.value && methods[i].action == action
  {
    if methods != [] {
      var init, last := methods[..|methods| - 1], methods[|methods| - 1];
      BindingsOfMethods(init, key, action);
      if (key, action) in MethodBindings(last) {
        var j :| 0 <= j < |MethodBindings(last)| && MethodBindings(last)[j] == (key, action);
        assert last.keys.value[j] == key;
      }
      if last.keys.Some? && key in last.keys.value && last.action == action {
        var j :| 0 <= j < |last.keys.value| && last.keys.value[j] == key;
        assert MethodBindings(last)[j] == (key, action);
      }
      if exists i :: 0 <= i < |methods| && methods[i].keys.Some?
                     && key in methods[i].keys.value && methods[i].action == action {
        var i :| 0 <= i < |methods| && methods[i].keys.Some?
                 && key in methods[i].keys.value && methods[i].action == action;
        if i < |methods| - 1 {
          assert init[i] == methods[i];
        }
      }
    }
  }

  /** The actions of `pairs` bound to `key`, in order. */
  function ActionsFor(pairs: seq<(KeyCode, ActionId)>, key: KeyCode): seq<ActionId>
  {
    if pairs == [] then []
    else
      var last := pairs[|pairs| - 1];
      ActionsFor(pairs[..|pairs| - 1], key) + (if last.0 == key then [last.1] else [])
  }

  /** The effect of EventEmitter.On for each pair in turn. */
  function Register(events: map<KeyCode, seq<ActionId>>, pairs: seq<(KeyCode, ActionId)>): map<KeyCode, seq<ActionId>>
  {
    if pairs == [] then events
    else
      var last := pairs[|pairs| - 1];
      var before := Register(events, pairs[..|pairs| - 1]);
      before[last.0 := Bound(before, last.0) + [last.1]]
  }

  /** Registering appends each key's new actions, in order, to that key's
      list, creates the list of a key that had none, and touches no other key. */
  lemma {:induction false} RegisterAppends(events: map<KeyCode, seq<ActionId>>, pairs: seq<(KeyCode, ActionId)>, key: KeyCode)
    ensures Bound(Register(events, pairs), key) == Bound(events, key) + ActionsFor(pairs, key)
    ensures key in Register(events, pairs)
            <==> key in events || exists i :: 0 <= i < |pairs| && pairs[i].0 == key
  {
    if pairs != [] {
      var init, last := pairs[..|pairs| - 1], pairs[|pairs| - 1];
      RegisterAppends(events, init, key);
      ExistsSplitLast(pairs, (p: (KeyCode, ActionId)) => p.0 == key);
      var before := Register(events, init);
      if last.0 == key {
        calc {
          Bound(Register(events, pairs), key);
          Bound(before, key) + [last.1];
          (Bound(events, key) + ActionsFor(init, key)) + [last.1];
          Bound(events, key) + (ActionsFor(init, key) + [last.1]);
        }
      } else {
        assert ActionsFor(pairs, key) == ActionsFor(init, key) + [];
      }
    }
  }

  /** Registering two lists is registering their concatenation. */
  lemma {:induction false} RegisterConcat(events: map<KeyCode, seq<ActionId>>, a: seq<(KeyCode, ActionId)>, b: seq<(KeyCode, ActionId)>)
    ensures Register(events, a + b) == Register(Register(events, a), b)
  {
    if b != [] {
      assert (a + b)[..|a + b| - 1] == a + b[..|b| - 1];
      RegisterConcat(events, a, b[..|b| - 1]);
    } else {
      assert a + b == a;
    }
  }

  /** The state Load and LoadFromAssembly act on: the bindings and the list
      of loaded module types. */
  datatype Registry = Registry(events: map<KeyCode, seq<ActionId>>, modules: seq<ModuleId>)

  /** Load: a type that is not a handler module is refused before anything
      changes; a loaded module is skipped; otherwise each of its bindings is
      registered and the module is recorded. */
  function Loaded(r: Registry, m: Module): Result<Registry, LoadError>
  {
    if !m.isSubclass then Failure(ArgumentException)
    else if m.id in r.modules then Success(r)
    else Success(Registry(Register(r.events, Bindings(m.methods)), r.modules + [m.id]))
  }

  /** Loading a module adds, for every key, exactly the actions its annotated
      methods bind to that key, after those already bound; loading it again
      changes nothing, so each handler is registered once. */
  lemma LoadBindsOnce(r: Registry, m: Module, key: KeyCode)
    requires m.isSubclass && m.id !in r.modules
    ensures Loaded(r, m).Success?
    ensures Bound(Loaded(r, m).value.events, key) == Bound(r.events, key) + ActionsFor(Bindings(m.methods), key)
    ensures m.id in Loaded(r, m).value.modules
    ensures Loaded(Loaded(r, m).value, m) == Loaded(r, m)
  {
    RegisterAppends(r.events, Bindings(m.methods), key);
  }

  /** Loading each module of `ms` in turn; `ms` holds handler modules only. */
  function LoadAll(r: Registry, ms: seq<Module>): (out: Registry)
    requires forall i :: 0 <= i < |ms| ==> ms[i].isSubclass
  {
    if ms == [] then r else Loaded(LoadAll(r, ms[..|ms| - 1]), ms[|ms| - 1]).value
  }

  /** After loading a list, a type is recorded exactly when it was before or
      is in the list, and no type is recorded twice. */
  lemma {:induction false} LoadAllRecords(r: Registry, ms: seq<Module>, id: ModuleId)
    requires forall i :: 0 <= i < |ms| ==> ms[i].isSubclass
    requires NoDuplicates(r.modules)
    ensures id in LoadAll(r, ms).modules <==> id in r.modules || exists i :: 0 <= i < |ms| && ms[i].id == id
    ensures NoDuplicates(LoadAll(r, ms).modules)
  {
    if ms != [] {
      var init := ms[..|ms| - 1];
      LoadAllRecords(r, init, id);
      if exists i :: 0 <= i < |ms| && ms[i].id == id {
        var i :| 0 <= i < |ms| && ms[i].id == id;
        if i < |ms| - 1 {
          assert init[i] == ms[i];
        }
      }
      if exists i :: 0 <= i < |init| && init[i].id == id {
        var i :| 0 <= i < |init| && init[i].id == id;
        assert ms[i] == init[i];
      }
      var before := LoadAll(r, init);
      var m := ms[|ms| - 1];
      if m.id !in before.modules {
        LoadAllRecords(r, init, m.id);
        NoDuplicatesAppend(before.modules, m.id);
      }
    }
  }

  /** The types LoadFromAssembly picks: handler modules without the opt-out marker. */
  function Eligible(types: seq<Module>): (ms: seq<Module>)
  {
    if types == [] then []
    else
      var t := types[|types| - 1];
      Eligible(types[..|types| - 1]) + (if t.isSubclass && t.autoRegister then [t] else [])
  }

  /** LoadFromAssembly loads exactly the handler modules of the assembly
      that do not opt out, in the assembly's order. */
  lemma {:induction false} EligibleExactly(types: seq<Module>, t: Module)
    ensures t in Eligible(types) <==> t in types && t.isSubclass && t.autoRegister
    ensures forall i :: 0 <= i < |Eligible(types)| ==> Eligible(types)[i].isSubclass
  {
    if types != [] {
      var init := types[..|types| - 1];
      EligibleExactly(init, t);
      assert types == init + [types[|types| - 1]];
    }
  }

  // ---------------------------------------------------------------------------
  // The classes

  /** Maps each key to the ordered list of actions bound to it. */
  class EventEmitter {
    var events: map<KeyCode, seq<ActionId>>

    constructor ()
      ensures events == map[]
    {
      events := map[];
    }

    function Actions(key: KeyCode): seq<ActionId>
      reads this
    {
      Bound(events, key)
    }

    /** Appends `action` to the end of the key's list, creating the list when
        the key has none; no other key's list changes. */
    method On(key: KeyCode, action: ActionId)
      modifies this
      ensures events == old(events)[key := Bound(old(events), key) + [action]]
    {
      if key !in events {
        assert Bound(events, key) + [action] == [action];
        events := events[key := [action]];
      } else {
        events := events[key := events[key] + [action]];
      }
    }

    /** Runs the actions bound to `key` in registration order; an unbound key
        runs nothing. Yields the actions that ran and the one that raised. */
    method Emit(key: KeyCode, throws: set<ActionId>) returns (ran: seq<ActionId>, failed: Option<ActionId>)
      ensures (ran, failed) == Invoke(Actions(key), throws)
      ensures key !in events ==> ran == [] && failed == None
    {
      if key in events {
        var executed := Invoke(events[key], throws);
        ran, failed := executed.0, executed.1;
      } else {
        ran, failed := [], None;
      }
    }
  }

  /** The registry: loaded module types, the emitter holding the bindings,
      and the two event slots OnPressed and OnError (multicast delegates,
      as the sequences of their subscribers). */
  class KeydownEventHandler {
    var OnError: seq<ActionId>
    var OnPressed: seq<ActionId>
    var modules: seq<ModuleId>
    const emitter: EventEmitter

    /** No module type is recorded twice. */
    ghost predicate Valid()
      reads this
    {
      NoDuplicates(modules)
    }

    constructor ()
      ensures Valid() && fresh(emitter)
      ensures OnError == [] && OnPressed == [] && State() == Registry(map[], [])
    {
      OnError := [];
      OnPressed := [];
      modules := [];
      emitter := new EventEmitter();
    }

    function State(): Registry
      reads this, emitter
    {
      Registry(emitter.events, modules)
    }

    /** Loads a handler module, as `Loaded` says; a type that is not one
        fails with ArgumentException and changes nothing. */
    method Load(m: Module) returns (outcome: Outcome<LoadError>)
      requires Valid()
      modifies this, emitter
      ensures Valid()
      ensures outcome == (if m.isSubclass then Pass else Fail(ArgumentException))
      ensures State() == (if m.isSubclass then Loaded(old(State()), m).value else old(State()))
      ensures OnError == old(OnError) && OnPressed == old(OnPressed)
    {
      if !m.isSubclass {
        return Fail(ArgumentException);
      }
      if m.id in modules {
        return Pass;
      }
      ghost var before := emitter.events;
      var i := 0;
      while i < |m.methods|
        invariant 0 <= i <= |m.methods|
        invariant emitter.events == Register(before, Bindings(m.methods[..i]))
        invariant modules == old(modules) && OnError == old(OnError) && OnPressed == old(OnPressed)
      {
        var handler := m.methods[i];
        ghost var done := Bindings(m.methods[..i]);
        assert m.methods[..i + 1][..i] == m.methods[..i];
        assert Bindings(m.methods[..i + 1]) == done + MethodBindings(handler);
        RegisterConcat(before, done, MethodBindings(handler));
        BindMethod(handler);
        i := i + 1;
      }
      assert m.methods[..i] == m.methods;
      NoDuplicatesAppend(modules, m.id);
      modules := modules + [m.id];
      outcome := Pass;
    }

    /** The inner loop of Load: binds the method's action to each key of its
        KeyAttribute, in order. */
    method BindMethod(handler: HandlerMethod)
      modifies emitter
      ensures emitter.events == Register(old(emitter.events), MethodBindings(handler))
    {
      if handler.keys.Some? {
        var keys := handler.keys.value;
        ghost var pairs := MethodBindings(handler);
        var j := 0;
        while j < |keys|
          invariant 0 <= j <= |keys|
          invariant emitter.events == Register(old(emitter.events), pairs[..j])
        {
          assert pairs[..j + 1][..j] == pairs[..j];
          emitter.On(keys[j], handler.action);
          j := j + 1;
        }
        assert pairs[..j] == pairs;
      }
    }

    /** Loads every eligible module of the assembly, in order. */
    method LoadFromAssembly(types: seq<Module>)
      requires Valid()
      modifies this, emitter
      ensures Valid()
      ensures forall i :: 0 <= i < |Eligible(types)| ==> Eligible(types)[i].isSubclass
      ensures State() == LoadAll(old(State()), Eligible(types))
      ensures OnError == old(OnError) && OnPressed == old(OnPressed)
    {
      var eligible := Eligible(types);
      forall t | t in eligible ensures t.isSubclass {
        EligibleExactly(types, t);
      }
      var i := 0;
      while i < |eligible|
        invariant 0 <= i <= |eligible|
        invariant Valid() && State() == LoadAll(old(State()), eligible[..i])
        invariant OnError == old(OnError) && OnPressed == old(OnPressed)
      {
        assert eligible[i] in eligible;
        var outcome := Load(eligible[i]);
        assert eligible[..i + 1][..i] == eligible[..i];
        i := i + 1;
      }
      assert eligible[..i] == eligible;
    }

    /** Runs the key's actions, then the pressed subscribers; the first
        exception is caught and handed to the error subscribers. Nothing
        escapes, and nothing in the registry changes. */
    method Press(key: KeyCode, throws: set<ActionId>) returns (calls: seq<Call>)
      ensures calls == PressCalls(emitter.Actions(key), OnPressed, OnError, key, throws)
    {
      var ran, failed := emitter.Emit(key, throws);
      calls := HandlerCalls(ran);
      if failed.None? {
        var notified := Invoke(OnPressed, throws);
        calls := calls + PressedCalls(notified.0, key);
        failed := notified.1;
      }
      if failed.Some? {
        calls := calls + ErrorCalls(OnError, key, failed.value);
      }
    }

    /** Empties both event slots (each delegate is subtracted from itself);
        bindings and loaded modules stay. */
    method RemoveAllListener()
      modifies this
      ensures OnPressed == [] && OnError == []
      ensures modules == old(modules)
    {
      OnPressed := [];
      OnError := [];
    }
  }
}
