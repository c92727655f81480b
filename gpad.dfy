/** The gamepad helper (src/gpad.ts): a cached snapshot of the browser's
    gamepad list, searched at most once per frame by the throttled getters,
    and a list of "connectchange" listeners whose window hooks are attached
    exactly while the list is non-empty. `navigator.getGamepads()` is the
    parameter `raw` of every operation that may search. */
module Gpad {
  import opened Common

  /** A connected gamepad: its id, the `value` of each button and each axis. */
  datatype Gamepad = Gamepad(id: string, buttons: seq<real>, axes: seq<real>)

  /** `gamepads.filter(gp => gp != null)`. */
  function Connected(raw: seq<Option<Gamepad>>): (r: seq<Gamepad>)
    ensures |r| <= |raw|
    ensures forall i :: 0 <= i < |r| ==> Some(r[i]) in raw
    ensures forall i :: 0 <= i < |raw| && raw[i].Some? ==> raw[i].value in r
    ensures (forall i :: 0 <= i < |raw| ==> raw[i].Some?) ==> |r| == |raw|
  {
    if raw == [] then []
    else (if raw[0].Some? then [raw[0].value] else []) + Connected(raw[1..])
  }

  /** Filtering keeps the order: it distributes over concatenation, so the
      connected pads of a list appear in the list's own order. */
  lemma {:induction false} ConnectedAppend(a: seq<Option<Gamepad>>, b: seq<Option<Gamepad>>)
    ensures Connected(a + b) == Connected(a) + Connected(b)
  {
    if a == [] {
      assert a + b == b;
    } else {
      assert (a + b)[1..] == a[1..] + b;
      ConnectedAppend(a[1..], b);
    }
  }

  /** `find(gp => gp.id === id)`. */
  function FindById(pads: seq<Gamepad>, id: string): (r: Option<Gamepad>)
    ensures r.Some? <==> exists i :: 0 <= i < |pads| && pads[i].id == id
    ensures r.Some? ==> r.value in pads && r.value.id == id
  {
    if pads == [] then None
    else if pads[0].id == id then Some(pads[0])
    else FindById(pads[1..], id)
  }

  /** The pad found is the first one carrying that id. */
  lemma {:induction false} FindByIdFirst(pads: seq<Gamepad>, id: string, k: nat)
    requires k < |pads| && pads[k].id == id
    requires forall j :: 0 <= j < k ==> pads[j].id != id
    ensures FindById(pads, id) == Some(pads[k])
  {
    if k > 0 {
      assert pads[1..][k - 1] == pads[k];
      forall j | 0 <= j < k - 1 ensures pads[1..][j].id != id {
        assert pads[1..][j] == pads[j + 1];
      }
      FindByIdFirst(pads[1..], id, k - 1);
    }
  }

  /** `gamepads[index] || undefined`: a hole or an index outside the list
      reads as undefined. */
  function AtIndex(raw: seq<Option<Gamepad>>, index: int): (r: Option<Gamepad>)
    ensures r.Some? <==> 0 <= index < |raw| && raw[index].Some?
    ensures r.Some? ==> r == raw[index]
  {
    if 0 <= index < |raw| then raw[index] else None
  }

  /** `connectedGamepads[0] || undefined`. */
  function First(pads: seq<Gamepad>): (r: Option<Gamepad>)
    ensures r.Some? <==> |pads| > 0
    ensures r.Some? ==> r.value == pads[0]
  {
    if |pads| > 0 then Some(pads[0]) else None
  }

  /** A "connectchange" listener: a user function, or the internal no-op
      function that `listen(true)` installs. */
  datatype ConnectFn = UserFn(id: nat) | ListenFn

  /** The module-level state of src/gpad.ts. `windowHooks` stands for the
      two `window` listeners for 'gamepadconnected' / 'gamepaddisconnected';
      `connectListener` for whether the internal listener is set. */
  class GamepadService {
    const supported: bool
    var gamepads: seq<Option<Gamepad>>
    var connectedGamepads: seq<Gamepad>
    var numSearches: nat
    var unsupportedWarningLogged: bool
    var connectListeners: seq<ConnectFn>
    var connectListener: bool
    var windowHooks: bool
    /** How many times "Gamepad unsupported" was logged. */
    ghost var warnings: nat
    /** Searches made by the throttled getters since the last reset. */
    ghost var searchesThisFrame: nat

    ghost predicate Valid()
      reads this
    {
      && connectedGamepads == Connected(gamepads)
      && (!supported ==> gamepads == [])
      && warnings == (if unsupportedWarningLogged then 1 else 0)
      && numSearches <= 1
      && searchesThisFrame <= numSearches
      && (windowHooks <==> |connectListeners| > 0)
      && NoDups(connectListeners)
    }

    /** The internal listener is in the list exactly while it is set. */
    ghost predicate Coupled()
      reads this
    {
      ListenFn in connectListeners <==> connectListener
    }

    /** The module's initial state; `supported` is the environment's answer. */
    constructor (supported: bool)
      ensures Valid() && Coupled() && this.supported == supported
      ensures gamepads == [] && connectedGamepads == [] && numSearches == 0
      ensures !unsupportedWarningLogged && connectListeners == []
      ensures !connectListener && !windowHooks
    {
      this.supported := supported;
      gamepads, connectedGamepads := [], [];
      numSearches := 0;
      unsupportedWarningLogged := false;
      connectListeners := [];
      connectListener, windowHooks := false, false;
      warnings, searchesThisFrame := 0, 0;
    }

    /** `searchGamepads()`: copies the browser list and filters out the
        nulls; without support both lists become empty and the warning is
        logged the first time only. */
    method SearchGamepads(raw: seq<Option<Gamepad>>) returns (r: seq<Option<Gamepad>>)
      requires Valid()
      modifies this
      ensures Valid()
      ensures supported ==> gamepads == raw
      ensures !supported ==> gamepads == []
      ensures connectedGamepads == Connected(gamepads) && r == gamepads
      ensures unsupportedWarningLogged == (old(unsupportedWarningLogged) || !supported)
      ensures warnings <= 1
      ensures numSearches == old(numSearches) && searchesThisFrame == old(searchesThisFrame)
      ensures connectListeners == old(connectListeners) && connectListener == old(connectListener)
      ensures windowHooks == old(windowHooks)
    {
      if supported {
        gamepads := raw;
        connectedGamepads := Connected(gamepads);
      } else {
        if !unsupportedWarningLogged {
          unsupportedWarningLogged := true;
          warnings := warnings + 1;
        }
        gamepads := [];
        connectedGamepads := [];
      }
      r := gamepads;
    }

    /** The search the throttled getters share: none while the flag is set;
        otherwise one search, then the flag is set and a reset is pending. */
    method Throttled(raw: seq<Option<Gamepad>>)
      requires Valid()
      modifies this
      ensures Valid() && numSearches == 1
      ensures old(numSearches) > 0 ==>
        gamepads == old(gamepads) && connectedGamepads == old(connectedGamepads) &&
        searchesThisFrame == old(searchesThisFrame) &&
        unsupportedWarningLogged == old(unsupportedWarningLogged)
      ensures old(numSearches) == 0 ==>
        (gamepads == if supported then raw else []) && searchesThisFrame == 1 &&
        unsupportedWarningLogged == (old(unsupportedWarningLogged) || !supported)
      ensures connectedGamepads == Connected(gamepads)
      ensures connectListeners == old(connectListeners) && connectListener == old(connectListener)
      ensures windowHooks == old(windowHooks)
    {
      if numSearches > 0 {
        return;
      }
      var _ := SearchGamepads(raw);
      numSearches := 1;
      searchesThisFrame := searchesThisFrame + 1;
    }

    /** `getGamepads()`. */
    method GetGamepads(raw: seq<Option<Gamepad>>) returns (r: seq<Option<Gamepad>>)
      requires Valid()
      modifies this
      ensures Valid() && numSearches == 1 && r == gamepads
      ensures old(numSearches) > 0 ==> r == old(gamepads) && searchesThisFrame == old(searchesThisFrame)
      ensures old(numSearches) == 0 ==> (r == if supported then raw else []) && searchesThisFrame == 1
      ensures unsupportedWarningLogged == (old(unsupportedWarningLogged) || (old(numSearches) == 0 && !supported))
      ensures connectListeners == old(connectListeners) && connectListener == old(connectListener)
      ensures windowHooks == old(windowHooks)
    {
      Throttled(raw);
      r := gamepads;
    }

    /** `getConnectedGamepads()`. */
    method GetConnectedGamepads(raw: seq<Option<Gamepad>>) returns (r: seq<Gamepad>)
      requires Valid()
      modifies this
      ensures Valid() && numSearches == 1 && r == connectedGamepads
      ensures old(numSearches) > 0 ==>
        r == old(connectedGamepads) && gamepads == old(gamepads) && searchesThisFrame == old(searchesThisFrame)
      ensures old(numSearches) == 0 ==>
        (r == if supported then Connected(raw) else []) && searchesThisFrame == 1
      ensures unsupportedWarningLogged == (old(unsupportedWarningLogged) || (old(numSearches) == 0 && !supported))
      ensures connectListeners == old(connectListeners) && connectListener == old(connectListener)
      ensures windowHooks == old(windowHooks)
    {
      Throttled(raw);
      r := connectedGamepads;
    }

    /** `getGamepadById(id)`. */
    method GetGamepadById(raw: seq<Option<Gamepad>>, id: string) returns (r: Option<Gamepad>)
      requires Valid()
      modifies this
      ensures Valid() && numSearches == 1
      ensures r == FindById(connectedGamepads, id)
      ensures old(numSearches) > 0 ==> connectedGamepads == old(connectedGamepads)
      ensures connectListeners == old(connectListeners) && connectListener == old(connectListener)
      ensures windowHooks == old(windowHooks)
    {
      var pads := GetConnectedGamepads(raw);
      r := FindById(pads, id);
    }

    /** `getGamepadByIndex(index)`: refreshes the cache through the
        throttle, then reads the raw list. */
    method GetGamepadByIndex(raw: seq<Option<Gamepad>>, index: int) returns (r: Option<Gamepad>)
      requires Valid()
      modifies this
      ensures Valid() && numSearches == 1
      ensures r == AtIndex(gamepads, index)
      ensures old(numSearches) > 0 ==> gamepads == old(gamepads)
      ensures connectListeners == old(connectListeners) && connectListener == old(connectListener)
      ensures windowHooks == old(windowHooks)
    {
      var _ := GetConnectedGamepads(raw);
      r := AtIndex(gamepads, index);
    }

    /** `getFirstGamepad()`. */
    method GetFirstGamepad(raw: seq<Option<Gamepad>>) returns (r: Option<Gamepad>)
      requires Valid()
      modifies this
      ensures Valid() && numSearches == 1
      ensures r == First(connectedGamepads)
      ensures old(numSearches) > 0 ==> connectedGamepads == old(connectedGamepads)
      ensures connectListeners == old(connectListeners) && connectListener == old(connectListener)
      ensures windowHooks == old(windowHooks)
    {
      var pads := GetConnectedGamepads(raw);
      r := First(pads);
    }

    /** The microtask `numSearches = 0` queued by a throttled search. */
    method ThrottleReset()
      requires Valid() && numSearches == 1
      modifies this
      ensures Valid() && numSearches == 0 && searchesThisFrame == 0
      ensures gamepads == old(gamepads) && connectedGamepads == old(connectedGamepads)
      ensures unsupportedWarningLogged == old(unsupportedWarningLogged)
      ensures connectListeners == old(connectListeners) && connectListener == old(connectListener)
      ensures windowHooks == old(windowHooks)
    {
      numSearches := 0;
      searchesThisFrame := 0;
    }

    /** `onGamepadConnectChange(e)`: a fresh search, then every listener, in
        list order, is called with the connected list. */
    method OnGamepadConnectChange(raw: seq<Option<Gamepad>>) returns (called: seq<ConnectFn>, arg: seq<Gamepad>)
      requires Valid()
      modifies this
      ensures Valid()
      ensures (gamepads == if supported then raw else []) && connectedGamepads == Connected(gamepads)
      ensures called == connectListeners && arg == connectedGamepads
      ensures unsupportedWarningLogged == (old(unsupportedWarningLogged) || !supported)
      ensures numSearches == old(numSearches)
      ensures connectListeners == old(connectListeners) && connectListener == old(connectListener)
      ensures windowHooks == old(windowHooks)
    {
      var _ := SearchGamepads(raw);
      called := [];
      for i := 0 to |connectListeners|
        invariant called == connectListeners[..i]
      {
        called := called + [connectListeners[i]];
      }
      arg := connectedGamepads;
    }

    /** `on('connectchange', fn)`: `false` and no change for a registered
        function; otherwise appended, with the window hooks attached on the
        first one. */
    method On(fn: ConnectFn) returns (added: bool)
      requires Valid()
      modifies this
      ensures Valid()
      ensures added <==> fn !in old(connectListeners)
      ensures !added ==> connectListeners == old(connectListeners)
      ensures added ==> connectListeners == old(connectListeners) + [fn]
      ensures windowHooks && fn in connectListeners
      ensures connectListener == old(connectListener)
      ensures fn.UserFn? && old(Coupled()) ==> Coupled()
      ensures gamepads == old(gamepads) && connectedGamepads == old(connectedGamepads)
      ensures numSearches == old(numSearches) && unsupportedWarningLogged == old(unsupportedWarningLogged)
    {
      var i := IndexOf(connectListeners, fn);
      if i >= 0 {
        return false;
      }
      ListAppendNoDups(connectListeners, fn);
      connectListeners := connectListeners + [fn];
      if |connectListeners| == 1 {
        windowHooks := true;
      }
      return true;
    }

    /** `off('connectchange', fn)`: `false` for an absent function;
        otherwise it is spliced out, with the hooks detached on the last. */
    method Off(fn: ConnectFn) returns (removed: bool)
      requires Valid()
      modifies this
      ensures Valid()
      ensures removed <==> fn in old(connectListeners)
      ensures !removed ==> connectListeners == old(connectListeners)
      ensures removed ==>
        connectListeners == RemoveAt(old(connectListeners), IndexOf(old(connectListeners), fn))
      ensures fn !in connectListeners
      ensures forall g :: g != fn ==> (g in connectListeners <==> g in old(connectListeners))
      ensures windowHooks <==> |connectListeners| > 0
      ensures connectListener == old(connectListener)
      ensures fn.UserFn? && old(Coupled()) ==> Coupled()
      ensures gamepads == old(gamepads) && connectedGamepads == old(connectedGamepads)
      ensures numSearches == old(numSearches) && unsupportedWarningLogged == old(unsupportedWarningLogged)
    {
      var i := IndexOf(connectListeners, fn);
      if i < 0 {
        return false;
      }
      RemoveAtOfNoDups(connectListeners, i);
      connectListeners := RemoveAt(connectListeners, i);
      if |connectListeners| == 0 {
        windowHooks := false;
      }
      return true;
    }

    /** `listen(enable)`: with no argument, or with the current state, it
        only answers the state; otherwise it installs or removes the
        internal listener and answers the new state. */
    method Listen(enable: Option<bool>) returns (listening: bool)
      requires Valid() && Coupled()
      modifies this
      ensures Valid() && Coupled()
      ensures listening == connectListener
      ensures enable.None? || enable.value == old(connectListener) ==>
        connectListener == old(connectListener) && connectListeners == old(connectListeners) &&
        windowHooks == old(windowHooks)
      ensures enable.Some? && enable.value != old(connectListener) ==>
        connectListener == enable.value &&
        (enable.value ==> connectListeners == old(connectListeners) + [ListenFn]) &&
        (!enable.value ==>
           ListenFn !in connectListeners &&
           connectListeners == RemoveAt(old(connectListeners), IndexOf(old(connectListeners), ListenFn)))
      ensures gamepads == old(gamepads) && connectedGamepads == old(connectedGamepads)
      ensures numSearches == old(numSearches) && unsupportedWarningLogged == old(unsupportedWarningLogged)
    {
      if enable.None? || enable.value == connectListener {
        return connectListener;
      }
      if connectListener {
        var _ := Off(ListenFn);
        connectListener := false;
      } else {
        connectListener := true;
        var _ := On(ListenFn);
      }
      return connectListener;
    }
  }

  lemma ListAppendNoDups(s: seq<ConnectFn>, x: ConnectFn)
    requires NoDups(s) && x !in s
    ensures NoDups(s + [x])
  {
    var l := s + [x];
    forall i, j | 0 <= i < j < |l| ensures l[i] != l[j] {
      if j == |l| - 1 { assert l[i] in s; }
    }
  }
}
