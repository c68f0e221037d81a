/** The global hook adapter and the per-key debouncer: raw low-level
    keyboard messages become one logical press per physical press, which is
    handed to the dispatch registry; every message is then passed on along
    the hook chain. */
module InterceptKeys {
  import opened Wrappers
  import Keys
  import opened KeydownEventService

  const WM_KEYDOWN: int := 0x0100
  const WM_KEYUP: int := 0x0101

  /** The opaque handle of an installed OS hook. */
  type Handle = int

  /** IntPtr.Zero, the handle before any hook is installed. */
  const NullHandle: Handle := 0

  /** The forwarding of a message to the next hook of the chain (CallNextHookEx). */
  datatype ChainCall = CallNextHookEx(hook: Handle, nCode: int, wParam: int, vkCode: KeyCode)

  /** Debouncing state of one key code: pressed between a novel key-down and
      the next key-up. */
  class Key {
    const KeyCode: KeyCode
    var IsKeyPressed: bool

    constructor (keyCode: KeyCode)
      ensures KeyCode == keyCode && !IsKeyPressed
    {
      KeyCode := keyCode;
      IsKeyPressed := false;
    }

    /** True exactly for a novel key-down; a repeat changes nothing. */
    method Keydown() returns (novel: bool)
      modifies this
      ensures novel == !old(IsKeyPressed)
      ensures IsKeyPressed
    {
      if IsKeyPressed {
        return false;
      }
      IsKeyPressed := true;
      return true;
    }

    /** True exactly when the key was pressed; a redundant key-up changes nothing. */
    method Keyup() returns (released: bool)
      modifies this
      ensures released == old(IsKeyPressed)
      ensures !IsKeyPressed
    {
      if !IsKeyPressed {
        return false;
      }
      IsKeyPressed := false;
      return true;
    }
  }

  // ---------------------------------------------------------------------------
  // The callback's effect on the pressed flags, as values

  /** One low-level hook invocation: the hook code, the message and the
      virtual-key code of the event. */
  datatype RawEvent = RawEvent(nCode: int, wParam: int, vkCode: KeyCode)

  /** The pressed flag of every key code seen so far. */
  type Flags = map<KeyCode, bool>

  predicate IsPressed(flags: Flags, k: KeyCode)
  {
    k in flags && flags[k]
  }

  /** One callback on the flags: a negative hook code touches nothing;
      otherwise the code gets a flag (unpressed when new), a key-down sets
      it and is a press exactly when it was clear, a key-up clears it.
      Yields the new flags and whether the key is pressed. */
  function Step(flags: Flags, e: RawEvent): (Flags, bool)
  {
    if e.nCode < 0 then (flags, false)
    else
      var was := IsPressed(flags, e.vkCode);
      if e.wParam == WM_KEYDOWN then (flags[e.vkCode := true], !was)
      else if e.wParam == WM_KEYUP then (flags[e.vkCode := false], false)
      else (flags[e.vkCode := was], false)
  }

  lemma UpdateTwice(flags: Flags, k: KeyCode, a: bool, b: bool)
    ensures flags[k := a][k := b] == flags[k := b]
  {
  }

  /** A stream of callbacks: the final flags and the codes pressed, in order. */
  function Run(flags: Flags, events: seq<RawEvent>): (Flags, seq<KeyCode>)
    decreases |events|
  {
    if events == [] then (flags, [])
    else
      var first := Step(flags, events[0]);
      var rest := Run(first.0, events[1..]);
      (rest.0, if first.1 then [events[0].vkCode] + rest.1 else rest.1)
  }

  function Down(k: KeyCode): RawEvent { RawEvent(0, WM_KEYDOWN, k) }

  function Up(k: KeyCode): RawEvent { RawEvent(0, WM_KEYUP, k) }

  function Downs(k: KeyCode, n: nat): seq<RawEvent>
  {
    seq(n, _ => Down(k))
  }

  /** Running two streams one after the other is running their concatenation. */
  lemma {:induction false} RunConcat(flags: Flags, a: seq<RawEvent>, b: seq<RawEvent>)
    ensures Run(flags, a + b).0 == Run(Run(flags, a).0, b).0
    ensures Run(flags, a + b).1 == Run(flags, a).1 + Run(Run(flags, a).0, b).1
    decreases |a|
  {
    if a != [] {
      assert (a + b)[0] == a[0] && (a + b)[1..] == a[1..] + b;
      RunConcat(Step(flags, a[0]).0, a[1..], b);
    } else {
      assert a + b == b;
    }
  }

  /** One more message: Run of a longer prefix is one more Step. */
  lemma RunSnoc(flags: Flags, events: seq<RawEvent>, i: nat)
    requires i < |events|
    ensures var before := Run(flags, events[..i]);
            var step := Step(before.0, events[i]);
            Run(flags, events[..i + 1])
            == (step.0, before.1 + (if step.1 then [events[i].vkCode] else []))
  {
    var e := events[i];
    RunConcat(flags, events[..i], [e]);
    assert events[..i + 1] == events[..i] + [e];
    RunOne(Run(flags, events[..i]).0, e);
  }

  lemma RunOne(flags: Flags, e: RawEvent)
    ensures Run(flags, [e]) == (Step(flags, e).0, if Step(flags, e).1 then [e.vkCode] else [])
  {
    assert [e][0] == e && [e][1..] == [];
    assert Run(Step(flags, e).0, []) == (Step(flags, e).0, []);
    assert [e.vkCode] + [] == [e.vkCode];
  }

  /** While a key is held, repeated key-downs press nothing and change nothing. */
  lemma {:induction false} RepeatsWhileHeld(flags: Flags, k: KeyCode, n: nat)
    requires IsPressed(flags, k)
    ensures Run(flags, Downs(k, n)) == (flags, [])
    decreases n
  {
    if n > 0 {
      var events := Downs(k, n);
      assert events[0] == Down(k);
      assert flags[k := true] == flags;
      assert Step(flags, events[0]) == (flags, false);
      assert events[1..] == Downs(k, n - 1);
      RepeatsWhileHeld(flags, k, n - 1);
    }
  }

  /** A held key (n >= 1 key-downs, OS key-repeat included) followed by a
      key-up is exactly one press, and leaves the key released. */
  lemma HeldKeyPressesOnce(flags: Flags, k: KeyCode, n: nat)
    requires n >= 1 && !IsPressed(flags, k)
    ensures Run(flags, Downs(k, n) + [Up(k)]) == (flags[k := false], [k])
  {
    var f1 := flags[k := true];
    assert Downs(k, n) == [Down(k)] + Downs(k, n - 1);
    RunConcat(flags, [Down(k)], Downs(k, n - 1));
    assert [Down(k)][1..] == [];
    assert Step(flags, Down(k)) == (f1, true);
    assert Run(f1, []) == (f1, []);
    assert [k] + [] == [k];
    assert Run(flags, [Down(k)]) == (f1, [k]);
    RepeatsWhileHeld(f1, k, n - 1);
    RunConcat(flags, Downs(k, n), [Up(k)]);
    assert Run(f1, [Up(k)]) == (f1[k := false], []);
    assert f1[k := false] == flags[k := false];
  }

  /** Down, down, down, up yields one press and a reset; the next down
      presses again. */
  lemma DownDownDownUpDown(flags: Flags, k: KeyCode)
    requires !IsPressed(flags, k)
    ensures Run(flags, [Down(k), Down(k), Down(k), Up(k)]) == (flags[k := false], [k])
    ensures Run(flags, [Down(k), Down(k), Down(k), Up(k), Down(k)]).1 == [k, k]
  {
    assert Downs(k, 3) + [Up(k)] == [Down(k), Down(k), Down(k), Up(k)];
    HeldKeyPressesOnce(flags, k, 3);
    var f := flags[k := false];
    RunConcat(flags, [Down(k), Down(k), Down(k), Up(k)], [Down(k)]);
    assert [Down(k), Down(k), Down(k), Up(k)] + [Down(k)] == [Down(k), Down(k), Down(k), Up(k), Down(k)];
    assert Run(f, [Down(k)]) == (f[k := true], [k]);
  }

  /** The presses of k in a list of codes. */
  function Count(codes: seq<KeyCode>, k: KeyCode): nat
  {
    if codes == [] then 0 else (if codes[0] == k then 1 else 0) + Count(codes[1..], k)
  }

  /** The key-up messages for k (with a hook code the callback processes). */
  function Releases(events: seq<RawEvent>, k: KeyCode): nat
  {
    if events == [] then 0
    else
      var e := events[0];
      (if e.nCode >= 0 && e.wParam == WM_KEYUP && e.vkCode == k then 1 else 0) + Releases(events[1..], k)
  }

  function Bit(b: bool): nat { if b then 1 else 0 }

  /** Between two presses of a key there is always a key-up of that key:
      presses, plus one when the key starts out held, never exceed
      releases, plus one when it ends up held. */
  lemma {:induction false} PressesNeedReleases(flags: Flags, events: seq<RawEvent>, k: KeyCode)
    ensures Count(Run(flags, events).1, k) + Bit(IsPressed(flags, k))
            <= Releases(events, k) + Bit(IsPressed(Run(flags, events).0, k))
    ensures Count(Run(flags, events).1, k) <= Releases(events, k) + 1
    decreases |events|
  {
    if events != [] {
      var first := Step(flags, events[0]);
      PressesNeedReleases(first.0, events[1..], k);
      if first.1 {
        CountConcat([events[0].vkCode], Run(first.0, events[1..]).1, k);
      }
    }
  }

  lemma {:induction false} CountConcat(a: seq<KeyCode>, b: seq<KeyCode>, k: KeyCode)
    ensures Count(a + b, k) == Count(a, k) + Count(b, k)
  {
    if a != [] {
      assert (a + b)[1..] == a[1..] + b;
      CountConcat(a[1..], b, k);
    } else {
      assert a + b == b;
    }
  }

  /** Only a key-down with a processed hook code can press: key-ups, other
      messages and negative hook codes never do, and negative hook codes
      leave every flag as it was. */
  lemma {:induction false} OnlyKeydownsPress(flags: Flags, events: seq<RawEvent>)
    requires forall i :: 0 <= i < |events| ==> events[i].nCode < 0 || events[i].wParam != WM_KEYDOWN
    ensures Run(flags, events).1 == []
    ensures (forall i :: 0 <= i < |events| ==> events[i].nCode < 0) ==> Run(flags, events).0 == flags
    decreases |events|
  {
    if events != [] {
      OnlyKeydownsPress(Step(flags, events[0]).0, events[1..]);
    }
  }

  /** Keys do not interfere: messages for other codes leave a key's flag alone. */
  lemma {:induction false} OtherKeysUntouched(flags: Flags, events: seq<RawEvent>, k: KeyCode)
    requires forall i :: 0 <= i < |events| ==> events[i].vkCode != k
    ensures IsPressed(Run(flags, events).0, k) == IsPressed(flags, k)
    ensures k !in Run(flags, events).1
    decreases |events|
  {
    if events != [] {
      OtherKeysUntouched(Step(flags, events[0]).0, events[1..], k);
    }
  }

  // ---------------------------------------------------------------------------
  // The hook adapter

  /** The process-wide hook state: the lazily filled key cache, the install
      flag, the OS handle and the dispatch registry. */
  class InterceptKeys {
    var keys: map<KeyCode, Key>
    var isHooked: bool
    var hookID: Handle
    const handler: KeydownEventHandler

    /** Every cached Key is the one for its own code (so no two codes share one). */
    ghost predicate Valid()
      reads this
    {
      forall k :: k in keys ==> keys[k].KeyCode == k
    }

    /** The pressed flag of every cached key. */
    ghost function Pressed(): Flags
      reads this, keys.Values
    {
      map k | k in keys :: keys[k].IsKeyPressed
    }

    constructor ()
      ensures Valid() && fresh(handler) && fresh(handler.emitter)
      ensures keys == map[] && !isHooked && hookID == NullHandle
      ensures handler.OnPressed == [] && handler.OnError == []
      ensures handler.State() == Registry(map[], [])
    {
      keys := map[];
      isHooked := false;
      hookID := NullHandle;
      handler := new KeydownEventHandler();
    }

    /** Installs the hook once: subscribes the callbacks and records the
        handle the OS returns. When already installed, returns false and
        changes nothing. */
    method Hook(onPressed: ActionId, onError: Option<ActionId>, osHandle: Handle) returns (ok: bool)
      modifies this, handler
      ensures ok == !old(isHooked)
      ensures isHooked && keys == old(keys)
      ensures handler.modules == old(handler.modules)
      ensures !ok ==> hookID == old(hookID) && handler.OnPressed == old(handler.OnPressed)
                      && handler.OnError == old(handler.OnError)
      ensures ok ==> hookID == osHandle && handler.OnPressed == old(handler.OnPressed) + [onPressed]
                     && handler.OnError == old(handler.OnError) + (if onError.Some? then [onError.value] else [])
    {
      if isHooked {
        return false;
      }
      handler.OnPressed := handler.OnPressed + [onPressed];
      if onError.Some? {
        handler.OnError := handler.OnError + [onError.value];
      }
      hookID := osHandle;
      isHooked := true;
      return true;
    }

    /** Removes the hook once: drops both subscriber lists. When not
        installed, returns false and changes nothing. */
    method Unhook() returns (ok: bool)
      modifies this, handler
      ensures ok == old(isHooked)
      ensures !isHooked && keys == old(keys) && hookID == old(hookID)
      ensures handler.modules == old(handler.modules)
      ensures !ok ==> handler.OnPressed == old(handler.OnPressed) && handler.OnError == old(handler.OnError)
      ensures ok ==> handler.OnPressed == [] && handler.OnError == []
    {
      if !isHooked {
        return false;
      }
      handler.RemoveAllListener();
      isHooked := false;
      return true;
    }

    /** The cached Key of a code, created unpressed on first sight. */
    method CachedKey(vkCode: KeyCode) returns (key: Key)
      requires Valid()
      modifies this`keys
      ensures Valid() && keys == old(keys)[vkCode := key] && key.KeyCode == vkCode
      ensures vkCode in old(keys) ==> key == old(keys[vkCode])
      ensures vkCode !in old(keys) ==> fresh(key)
      ensures key.IsKeyPressed == IsPressed(old(Pressed()), vkCode)
      ensures Pressed() == old(Pressed())[vkCode := key.IsKeyPressed]
    {
      if vkCode in keys {
        key := keys[vkCode];
        assert keys == keys[vkCode := key];
      } else {
        key := new Key(vkCode);
        keys := keys[vkCode := key];
      }
    }

    /** When only the Key of code k changed, only k's flag changed. */
    twostate lemma OnlyOneKeyChanged(k: KeyCode)
      requires Valid() && k in keys && unchanged(this)
      requires forall j :: j in keys && j != k ==> unchanged(keys[j])
      ensures Pressed() == old(Pressed())[k := keys[k].IsKeyPressed]
    {
      var now, before := Pressed(), old(Pressed())[k := keys[k].IsKeyPressed];
      assert now.Keys == before.Keys;
      forall j | j in now.Keys ensures now[j] == before[j] {
        if j != k {
          assert old(keys[j].IsKeyPressed) == keys[j].IsKeyPressed;
        }
      }
    }

    /** The message handling of the callback for a key: a key-down runs the
        press pipeline when it is novel, a key-up releases the key, any
        other message leaves it alone. */
    method Debounce(key: Key, wParam: int, throws: set<ActionId>) returns (calls: seq<Call>)
      modifies key
      ensures key.IsKeyPressed == if wParam == WM_KEYDOWN then true
                                  else if wParam == WM_KEYUP then false
                                  else old(key.IsKeyPressed)
      ensures calls == if wParam == WM_KEYDOWN && !old(key.IsKeyPressed)
                       then PressCalls(handler.emitter.Actions(key.KeyCode), handler.OnPressed,
                                       handler.OnError, key.KeyCode, throws)
                       else []
    {
      calls := [];
      if wParam == WM_KEYDOWN {
        var novel := key.Keydown();
        if novel {
          calls := handler.Press(key.KeyCode, throws);
        }
      } else if wParam == WM_KEYUP {
        var released := key.Keyup();
      }
    }

    /** The low-level keyboard callback. For a hook code >= 0 it fetches or
        creates the code's Key, debounces the message and, on a novel
        key-down, runs the press pipeline; the message is always forwarded
        along the chain. `throws` are the delegates that raise on this call. */
    method HookCallback(nCode: int, wParam: int, vkCode: KeyCode, throws: set<ActionId>)
      returns (calls: seq<Call>, next: ChainCall)
      requires Valid()
      modifies this, keys.Values
      ensures Valid()
      ensures Pressed() == Step(old(Pressed()), RawEvent(nCode, wParam, vkCode)).0
      ensures calls == (if Step(old(Pressed()), RawEvent(nCode, wParam, vkCode)).1
                        then PressCalls(handler.emitter.Actions(vkCode), handler.OnPressed, handler.OnError, vkCode, throws)
                        else [])
      ensures nCode < 0 ==> keys == old(keys)
      ensures nCode >= 0 ==> vkCode in keys && (vkCode in old(keys) ==> keys[vkCode] == old(keys[vkCode]))
      ensures nCode >= 0 ==> keys == old(keys)[vkCode := keys[vkCode]]
      ensures fresh(keys.Values - old(keys.Values))
      ensures next == CallNextHookEx(hookID, nCode, wParam, vkCode)
      ensures isHooked == old(isHooked) && hookID == old(hookID)
    {
      calls := [];
      ghost var before := Pressed();
      if nCode >= 0 {
        var key := CachedKey(vkCode);
        assert forall k :: k in keys && k != vkCode ==> keys[k] != key;
        ghost var cached := Pressed();
        label cached:
        calls := Debounce(key, wParam, throws);
        OnlyOneKeyChanged@cached(vkCode);
        UpdateTwice(before, vkCode, cached[vkCode], key.IsKeyPressed);
      }
      next := CallNextHookEx(hookID, nCode, wParam, vkCode);
    }

    /** The OS delivering a stream of messages to the callback, one at a
        time: the pressed flags end as `Run` says, and the calls made are one
        press pipeline for each press `Run` reports, in order. */
    method DeliverAll(events: seq<RawEvent>, throws: set<ActionId>) returns (calls: seq<Call>)
      requires Valid()
      modifies this, keys.Values
      ensures Valid()
      ensures Pressed() == Run(old(Pressed()), events).0
      ensures calls == PressesCalls(handler.emitter.events, handler.OnPressed, handler.OnError,
                                    Run(old(Pressed()), events).1, throws)
      ensures isHooked == old(isHooked) && hookID == old(hookID)
    {
      ghost var start := Pressed();
      ghost var bindings, onPressed, onError := handler.emitter.events, handler.OnPressed, handler.OnError;
      ghost var flags, codes := start, [];
      calls := [];
      var i := 0;
      while i < |events|
        invariant 0 <= i <= |events|
        invariant Valid() && isHooked == old(isHooked) && hookID == old(hookID)
        invariant fresh(keys.Values - old(keys.Values))
        invariant handler.emitter.events == bindings && handler.OnPressed == onPressed && handler.OnError == onError
        invariant (flags, codes) == Run(start, events[..i])
        invariant Pressed() == flags
        invariant calls == PressesCalls(bindings, onPressed, onError, codes, throws)
      {
        var e := events[i];
        RunSnoc(start, events, i);
        ghost var step := Step(flags, e);
        PressesCallsSnoc(bindings, onPressed, onError, codes, step.1, e.vkCode, throws);
        var more, next := HookCallback(e.nCode, e.wParam, e.vkCode, throws);
        flags, codes := step.0, codes + (if step.1 then [e.vkCode] else []);
        calls := calls + more;
        i := i + 1;
      }
      assert events[..i] == events;
    }
  }

  /** The delegate calls of one press pipeline per pressed code, in order,
      for the bindings `events` and the two subscriber lists. */
  function PressesCalls(events: map<KeyCode, seq<ActionId>>, onPressed: seq<ActionId>, onError: seq<ActionId>,
                        codes: seq<KeyCode>, throws: set<ActionId>): seq<Call>
  {
    if codes == [] then []
    else
      var k := codes[|codes| - 1];
      PressesCalls(events, onPressed, onError, codes[..|codes| - 1], throws)
        + PressCalls(Bound(events, k), onPressed, onError, k, throws)
  }


  /** A message that reports a press adds that press's pipeline; any other adds nothing. */
  lemma PressesCallsSnoc(events: map<KeyCode, seq<ActionId>>, onPressed: seq<ActionId>, onError: seq<ActionId>,
                         codes: seq<KeyCode>, pressed: bool, k: KeyCode, throws: set<ActionId>)
    ensures PressesCalls(events, onPressed, onError, codes + (if pressed then [k] else []), throws)
            == PressesCalls(events, onPressed, onError, codes, throws)
               + (if pressed then PressCalls(Bound(events, k), onPressed, onError, k, throws) else [])
  {
    if pressed {
      assert (codes + [k])[..|codes|] == codes;
    } else {
      assert codes + [] == codes;
    }
  }



  // ---------------------------------------------------------------------------
  // Scenarios, proved from the contracts above

  /** Installing twice gives (true, false). */
  method HookTwice() returns (first: bool, second: bool)
    ensures first && !second
  {
    var hook := new InterceptKeys();
    first := hook.Hook(1, None, 7);
    second := hook.Hook(2, None, 8);
  }

  /** Uninstalling a fresh adapter twice gives (false, false); after an
      install and an uninstall, installing again succeeds and starts from
      the new subscribers only. */
  method HookLifecycle() returns (unhooked: seq<bool>, rehooked: bool, onPressed: seq<ActionId>, onError: seq<ActionId>)
    ensures unhooked == [false, false, true] && rehooked
    ensures onPressed == [3] && onError == []
  {
    var hook := new InterceptKeys();
    var u1 := hook.Unhook();
    var u2 := hook.Unhook();
    var h := hook.Hook(1, Some(2), 7);
    var u3 := hook.Unhook();
    unhooked := [u1, u2, u3];
    rehooked := hook.Hook(3, None, 9);
    onPressed, onError := hook.handler.OnPressed, hook.handler.OnError;
  }

  /** A handler bound to Return, a pressed subscriber and an error
      subscriber: a raw down then up of Return runs the handler once and
      tells the subscriber once, and reports no error; every message is
      forwarded to the next hook. */
  method ReturnKeyScenario() returns (down: seq<Call>, up: seq<Call>, forwarded: seq<ChainCall>)
    ensures down == [Handler(10), Pressed(20, Keys.Return)] && up == []
    ensures forwarded == [CallNextHookEx(7, 0, WM_KEYDOWN, Keys.Return), CallNextHookEx(7, 0, WM_KEYUP, Keys.Return)]
  {
    var hook := new InterceptKeys();
    hook.handler.emitter.On(Keys.Return, 10);
    var ok := hook.Hook(20, Some(30), 7);
    var next1, next2;
    down, next1 := hook.HookCallback(0, WM_KEYDOWN, Keys.Return, {});
    up, next2 := hook.HookCallback(0, WM_KEYUP, Keys.Return, {});
    forwarded := [next1, next2];
  }

  /** A handler for key 65 that always raises: a raw down reports the error
      once, with the key and the handler as cause, and the pressed
      subscriber is not told (Press catches around both steps). */
  method FailingHandlerScenario() returns (down: seq<Call>)
    ensures down == [Handler(10), Error(30, 65, 10)]
  {
    var hook := new InterceptKeys();
    hook.handler.emitter.On(65, 10);
    var ok := hook.Hook(20, Some(30), 7);
    var next;
    down, next := hook.HookCallback(0, WM_KEYDOWN, 65, {10});
  }
}
