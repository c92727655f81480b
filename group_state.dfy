/** The behaviour of one named input group (`GameInputGroup` in
    src/index.ts) as functions of what it can observe: its pressed bit, its
    key codes read against the global key table, the pressed bits of its
    element inputs, its gamepad controls read against the connected
    gamepads, and its press / release listener lists. The registry in
    module `Index` runs these steps on its group objects. */
module GroupState {
  import opened Common
  import KeyInput
  import opened Gpad
  import GI = GpadInput
  import EI = ElementInput

  datatype EventType = Press | Release

  /** The `type` argument of `on`: only 'press' and 'release' are accepted. */
  function ParseEventType(s: string): (t: Option<EventType>)
    ensures t == Some(Press) <==> s == "press"
    ensures t == Some(Release) <==> s == "release"
    ensures t.None? <==> s != "press" && s != "release"
  {
    if s == "press" then Some(Press) else if s == "release" then Some(Release) else None
  }

  /** One listener call: the callback and the name it receives. */
  datatype Call = Call(callback: nat, name: string)

  /** What a group's behaviour depends on. `name` is the value the group
      passes to its listeners. */
  datatype GroupView = GroupView(
    name: string,
    isPressed: bool,
    keyCodes: seq<int>,
    ctrls: seq<GI.GpadInput>,
    elementsPressed: seq<bool>,
    press: seq<nat>,
    release: seq<nat>)

  /** Every listener of `ls`, in order, called with `name`. */
  function Notify(ls: seq<nat>, name: string): (calls: seq<Call>)
    ensures |calls| == |ls|
    ensures forall i :: 0 <= i < |ls| ==> calls[i] == Call(ls[i], name)
  {
    if ls == [] then [] else [Call(ls[0], name)] + Notify(ls[1..], name)
  }

  /** `keyPressed()`: some member key is down in the global table. */
  predicate KeyPressed(v: GroupView, t: KeyInput.KeyTable)
  {
    exists i :: 0 <= i < |v.keyCodes| && KeyInput.IsDown(t, v.keyCodes[i])
  }

  /** `elementPressed()`. */
  predicate ElementPressed(v: GroupView)
  {
    exists i :: 0 <= i < |v.elementsPressed| && v.elementsPressed[i]
  }

  /** `gpCtrls.some(gc => gc.pressed())`: stops at the first pressed
      control, and throws when a control before it throws. */
  function CtrlsPressed(ctrls: seq<GI.GpadInput>, pads: seq<Gamepad>): Completion<bool>
  {
    if ctrls == [] then Normal(false)
    else
      match GI.Pressed(ctrls[0], pads)
      case Thrown(e) => Thrown(e)
      case Normal(b) => if b then Normal(true) else CtrlsPressed(ctrls[1..], pads)
  }

  /** `some` is true exactly when a control is pressed and every control
      before it reads not pressed, and false exactly when every control
      reads not pressed; otherwise it throws. */
  lemma {:induction false} CtrlsPressedSpec(ctrls: seq<GI.GpadInput>, pads: seq<Gamepad>)
    ensures CtrlsPressed(ctrls, pads) == Normal(true) <==>
      exists i :: 0 <= i < |ctrls| && GI.Pressed(ctrls[i], pads) == Normal(true) &&
        forall j :: 0 <= j < i ==> GI.Pressed(ctrls[j], pads) == Normal(false)
    ensures CtrlsPressed(ctrls, pads) == Normal(false) <==>
      forall i :: 0 <= i < |ctrls| ==> GI.Pressed(ctrls[i], pads) == Normal(false)
  {
    if ctrls != [] {
      CtrlsPressedSpec(ctrls[1..], pads);
      assert forall i :: 1 <= i < |ctrls| ==> ctrls[1..][i - 1] == ctrls[i];
      if GI.Pressed(ctrls[0], pads) == Normal(false) && CtrlsPressed(ctrls, pads) == Normal(true) {
        var k :| 0 <= k < |ctrls[1..]| && GI.Pressed(ctrls[1..][k], pads) == Normal(true) &&
          forall j :: 0 <= j < k ==> GI.Pressed(ctrls[1..][j], pads) == Normal(false);
        assert GI.Pressed(ctrls[k + 1], pads) == Normal(true);
      }
    }
  }

  /** `gpadCtrlPressed()`. */
  function GpadCtrlPressed(v: GroupView, pads: seq<Gamepad>): Completion<bool>
  {
    CtrlsPressed(v.ctrls, pads)
  }

  /** The result of one device step: the new view and the listener calls made. */
  datatype Step = Step(view: GroupView, calls: seq<Call>)

  /** `onDevicePress()`. */
  function DevicePress(v: GroupView): Step
  {
    if v.isPressed then Step(v, [])
    else Step(v.(isPressed := true), Notify(v.press, v.name))
  }

  /** `onDeviceRelease()`: released only when no member key, element or
      gamepad control still holds the group. */
  function DeviceRelease(v: GroupView, t: KeyInput.KeyTable, pads: seq<Gamepad>): Completion<Step>
  {
    if !v.isPressed || KeyPressed(v, t) || ElementPressed(v) then Normal(Step(v, []))
    else
      match GpadCtrlPressed(v, pads)
      case Thrown(e) => Thrown(e)
      case Normal(held) =>
        if held then Normal(Step(v, []))
        else Normal(Step(v.(isPressed := false), Notify(v.release, v.name)))
  }

  /** One group's turn in `poll()`. */
  function PollStep(v: GroupView, t: KeyInput.KeyTable, pads: seq<Gamepad>): Completion<Step>
  {
    match GpadCtrlPressed(v, pads)
    case Thrown(e) => Thrown(e)
    case Normal(held) => if held then Normal(DevicePress(v)) else DeviceRelease(v, t, pads)
  }

  /** A press is an up-to-down edge: on a pressed group it does nothing and
      calls nobody; otherwise it sets the bit and calls every press listener
      once, in list order. A second press is always silent. */
  lemma DevicePressSpec(v: GroupView)
    ensures v.isPressed ==> DevicePress(v) == Step(v, [])
    ensures !v.isPressed ==> DevicePress(v).view == v.(isPressed := true)
    ensures !v.isPressed ==> DevicePress(v).calls == Notify(v.press, v.name)
    ensures DevicePress(DevicePress(v).view) == Step(DevicePress(v).view, [])
  {
  }

  /** A release clears the bit and calls every release listener once,
      in order, exactly when the group was pressed and no member key,
      element or gamepad control holds it; otherwise nothing changes. */
  lemma DeviceReleaseSpec(v: GroupView, t: KeyInput.KeyTable, pads: seq<Gamepad>)
    ensures !v.isPressed || KeyPressed(v, t) || ElementPressed(v) ==>
      DeviceRelease(v, t, pads) == Normal(Step(v, []))
    ensures GpadCtrlPressed(v, pads) == Normal(true) ==> DeviceRelease(v, t, pads) == Normal(Step(v, []))
    ensures DeviceRelease(v, t, pads).Normal? && DeviceRelease(v, t, pads).value.view.isPressed != v.isPressed <==>
      v.isPressed && !KeyPressed(v, t) && !ElementPressed(v) && GpadCtrlPressed(v, pads) == Normal(false)
    ensures DeviceRelease(v, t, pads).Normal? && DeviceRelease(v, t, pads).value.view != v ==>
      DeviceRelease(v, t, pads).value == Step(v.(isPressed := false), Notify(v.release, v.name))
    ensures DeviceRelease(v, t, pads).Thrown? ==>
      v.isPressed && !KeyPressed(v, t) && !ElementPressed(v) && GpadCtrlPressed(v, pads).Thrown?
  {
  }

  /** A group held by a key or an element stays pressed through `poll()`,
      unless reading one of its gamepad controls throws first. */
  lemma PollKeepsHeld(v: GroupView, t: KeyInput.KeyTable, pads: seq<Gamepad>)
    requires v.isPressed && (KeyPressed(v, t) || ElementPressed(v))
    ensures GpadCtrlPressed(v, pads).Normal? ==> PollStep(v, t, pads) == Normal(Step(v, []))
  {
  }

  /** `poll()` settles a group in one turn: a second turn on the same
      inputs changes nothing and calls nobody. */
  lemma PollStable(v: GroupView, t: KeyInput.KeyTable, pads: seq<Gamepad>)
    requires PollStep(v, t, pads).Normal?
    ensures var w := PollStep(v, t, pads).value.view;
      PollStep(w, t, pads) == Normal(Step(w, []))
  {
    var w := PollStep(v, t, pads).value.view;
    assert w.ctrls == v.ctrls && w.keyCodes == v.keyCodes && w.elementsPressed == v.elementsPressed;
  }

  /** `Math.max` over the control values, from `acc`. */
  function MaxValue(acc: GI.Number, ctrls: seq<GI.GpadInput>, pads: seq<Gamepad>): (r: Completion<GI.Number>)
    ensures r.Normal? && r.value.Num? ==> acc.Num? && r.value.v >= acc.v
    ensures r.Normal? && r.value.Num? ==>
      forall i :: 0 <= i < |ctrls| ==>
        (GI.Value(ctrls[i], pads).Normal? && GI.Value(ctrls[i], pads).value.Num? &&
         r.value.v >= GI.Value(ctrls[i], pads).value.v)
    ensures r.Normal? && r.value.Num? ==>
      (r.value.v == acc.v ||
       exists i :: 0 <= i < |ctrls| && GI.Value(ctrls[i], pads) == Normal(r.value))
    ensures (acc.Num? && forall i :: 0 <= i < |ctrls| ==> GI.Readable(ctrls[i], pads)) ==> r.Normal? && r.value.Num?
    decreases |ctrls|
  {
    if ctrls == [] then Normal(acc)
    else
      match GI.Value(ctrls[0], pads)
      case Thrown(e) => Thrown(e)
      case Normal(n) =>
        var rest := MaxValue(GI.Max(acc, n), ctrls[1..], pads);
        assert forall i :: 1 <= i < |ctrls| ==> ctrls[1..][i - 1] == ctrls[i];
        rest
  }

  /** `value()`: 1 while a member key or element is pressed, otherwise the
      largest gamepad control value, 0 with no controls. */
  function Value(v: GroupView, t: KeyInput.KeyTable, pads: seq<Gamepad>): Completion<GI.Number>
  {
    if KeyPressed(v, t) || ElementPressed(v) then Normal(GI.Num(1.0))
    else MaxValue(GI.Num(0.0), v.ctrls, pads)
  }

  /** A group's value is a number in [0, 1] whenever every control reads a
      number; it is 1 while a key or element is pressed, and otherwise the
      largest control value, or 0. */
  lemma ValueRange(v: GroupView, t: KeyInput.KeyTable, pads: seq<Gamepad>)
    ensures KeyPressed(v, t) || ElementPressed(v) ==> Value(v, t, pads) == Normal(GI.Num(1.0))
    ensures Value(v, t, pads).Normal? && Value(v, t, pads).value.Num? ==> 0.0 <= Value(v, t, pads).value.v <= 1.0
    ensures (forall i :: 0 <= i < |v.ctrls| ==> GI.Readable(v.ctrls[i], pads)) ==>
      Value(v, t, pads).Normal? && Value(v, t, pads).value.Num?
    ensures !KeyPressed(v, t) && !ElementPressed(v) && v.ctrls == [] ==> Value(v, t, pads) == Normal(GI.Num(0.0))
  {
    if !(KeyPressed(v, t) || ElementPressed(v)) {
      var r := MaxValue(GI.Num(0.0), v.ctrls, pads);
      if r.Normal? && r.value.Num? {
        if r.value.v != 0.0 {
          var i :| 0 <= i < |v.ctrls| && GI.Value(v.ctrls[i], pads) == Normal(r.value);
          GI.ValueSpec(v.ctrls[i], pads);
        }
      }
    }
  }

  /** A group bound to button 0 of pad "pad": polling at 0.9 presses it and
      calls its press listener, at 0.2 it is released and its release
      listener runs; both receive the window name ("win" here). */
  lemma FireScenario()
    ensures
      var pad := Gamepad("pad", [0.9], []);
      var v := GroupView("win", false, [], [GI.Button("pad", 0)], [], [7], [8]);
      PollStep(v, map[], [pad]) == Normal(Step(v.(isPressed := true), [Call(7, "win")]))
    ensures
      var pad := Gamepad("pad", [0.2], []);
      var v := GroupView("win", true, [], [GI.Button("pad", 0)], [], [7], [8]);
      PollStep(v, map[], [pad]) == Normal(Step(v.(isPressed := false), [Call(8, "win")]))
  {
    var c := GI.Button("pad", 0);
    assert GI.Pressed(c, [Gamepad("pad", [0.9], [])]) == Normal(true);
    assert GI.Pressed(c, [Gamepad("pad", [0.2], [])]) == Normal(false);
    assert [c][1..] == [];
    assert CtrlsPressed([c], [Gamepad("pad", [0.9], [])]) == Normal(true);
    assert CtrlsPressed([c], [Gamepad("pad", [0.2], [])]) == Normal(false);
    assert [7][1..] == [] && [8][1..] == [];
    assert Notify([7], "win") == [Call(7, "win")];
    assert Notify([8], "win") == [Call(8, "win")];
    var v := GroupView("win", true, [], [c], [], [7], [8]);
    assert !KeyPressed(v, map[]) && !ElementPressed(v);
  }

  /** Registering a group listener: a callback already in the list is
      ignored, any other is appended. */
  function AddListener(ls: seq<nat>, cb: nat): (r: seq<nat>)
    ensures cb in r
    ensures cb in ls ==> r == ls
    ensures cb !in ls ==> r == ls + [cb]
    ensures NoDups(ls) ==> NoDups(r)
  {
    if cb in ls then ls
    else
      assert forall i :: 0 <= i < |ls| ==> (ls + [cb])[i] == ls[i];
      ls + [cb]
  }

  /** The last position of `x` in `s`, or -1: the backwards search of `off`. */
  function LastIndexOf(s: seq<nat>, x: nat): (k: int)
    ensures -1 <= k < |s|
    ensures k >= 0 ==> s[k] == x && forall j :: k < j < |s| ==> s[j] != x
    ensures k < 0 <==> x !in s
    decreases |s|
  {
    if s == [] then -1
    else if s[|s| - 1] == x then |s| - 1
    else
      var k := LastIndexOf(s[..|s| - 1], x);
      assert forall j :: 0 <= j < |s| - 1 ==> s[..|s| - 1][j] == s[j];
      assert x !in s[..|s| - 1] ==> x !in s;
      k
  }

  /** Unregistering a group listener removes only its last occurrence;
      every other entry keeps its place. */
  function RemoveLast(ls: seq<nat>, cb: nat): (r: seq<nat>)
    ensures cb !in ls ==> r == ls
    ensures cb in ls ==>
      (|r| == |ls| - 1 &&
       var k := LastIndexOf(ls, cb);
       r[..k] == ls[..k] && r[k..] == ls[k + 1..])
  {
    var k := LastIndexOf(ls, cb);
    if k < 0 then ls else RemoveAt(ls, k)
  }

  /** Removing after adding a fresh callback gives the list back. */
  lemma {:induction false} AddThenRemove(ls: seq<nat>, cb: nat)
    requires cb !in ls
    ensures RemoveLast(AddListener(ls, cb), cb) == ls
  {
    assert LastIndexOf(ls + [cb], cb) == |ls|;
    assert (ls + [cb])[..|ls|] == ls;
  }

  /** The listener list of one type. */
  function Listeners(v: GroupView, t: EventType): seq<nat>
  {
    if t == Press then v.press else v.release
  }

  /** `on(name, type, cb)` on the group's view: the callback is added to
      the list of that type. */
  function Listen(v: GroupView, t: EventType, cb: nat): GroupView
  {
    if t == Press then v.(press := AddListener(v.press, cb)) else v.(release := AddListener(v.release, cb))
  }

  /** `off(name, type, cb)` on the group's view: the last occurrence of the
      callback leaves the list of that type. */
  function Unlisten(v: GroupView, t: EventType, cb: nat): GroupView
  {
    if t == Press then v.(press := RemoveLast(v.press, cb)) else v.(release := RemoveLast(v.release, cb))
  }

  /** `on` changes only the list of the given type, and only to add the
      callback; adding it again changes nothing; `off` after `on` of a new
      callback restores the group. */
  lemma ListenSpec(v: GroupView, t: EventType, u: EventType, cb: nat)
    ensures cb in Listeners(Listen(v, t, cb), t)
    ensures u != t ==> Listeners(Listen(v, t, cb), u) == Listeners(v, u)
    ensures Listen(v, t, cb).(press := v.press, release := v.release) == v
    ensures cb in Listeners(v, t) ==> Listen(v, t, cb) == v
    ensures cb !in Listeners(v, t) ==> Listeners(Listen(v, t, cb), t) == Listeners(v, t) + [cb]
    ensures Listen(Listen(v, t, cb), t, cb) == Listen(v, t, cb)
    ensures cb !in Listeners(v, t) ==> Unlisten(Listen(v, t, cb), t, cb) == v
  {
    if cb !in Listeners(v, t) {
      AddThenRemove(Listeners(v, t), cb);
    }
  }

  /** `off` changes only the list of the given type; it shortens it by one
      exactly when the callback was there. */
  lemma UnlistenSpec(v: GroupView, t: EventType, u: EventType, cb: nat)
    ensures u != t ==> Listeners(Unlisten(v, t, cb), u) == Listeners(v, u)
    ensures Unlisten(v, t, cb).(press := v.press, release := v.release) == v
    ensures cb !in Listeners(v, t) ==> Unlisten(v, t, cb) == v
    ensures cb in Listeners(v, t) ==> |Listeners(Unlisten(v, t, cb), t)| == |Listeners(v, t)| - 1
    ensures NoDups(Listeners(v, t)) ==> cb !in Listeners(Unlisten(v, t, cb), t)
  {
    var ls := Listeners(v, t);
    if NoDups(ls) && cb in ls {
      var k := LastIndexOf(ls, cb);
      var r := RemoveLast(ls, cb);
      assert r == ls[..k] + ls[k + 1..] by {
        assert r[..k] == ls[..k] && r[k..] == ls[k + 1..];
        assert r == r[..k] + r[k..];
      }
      forall j | 0 <= j < |r| ensures r[j] != cb {
        if j < k { assert r[j] == ls[j]; } else { assert r[j] == ls[j + 1]; }
      }
    }
  }

  /** What one group does in a fan-out: a key-down press, a key-up
      release, or a turn of `poll()`. */
  datatype Action = OnPress | OnRelease | OnPoll

  function Apply(a: Action, v: GroupView, t: KeyInput.KeyTable, pads: seq<Gamepad>): Completion<Step>
  {
    match a
    case OnPress => Normal(DevicePress(v))
    case OnRelease => DeviceRelease(v, t, pads)
    case OnPoll => PollStep(v, t, pads)
  }

  /** The result of applying an action to a list of groups in turn: the
      groups' views afterwards, the calls made, and the error that stopped
      the run, if one did. */
  datatype Run = Run(views: seq<GroupView>, calls: seq<Call>, error: Option<string>)

  /** The action applied to the groups `vs`, in order; once a turn throws,
      the later groups are not reached. */
  function RunAll(a: Action, vs: seq<GroupView>, t: KeyInput.KeyTable, pads: seq<Gamepad>): (r: Run)
    ensures |r.views| == |vs|
  {
    if vs == [] then Run([], [], None)
    else
      match Apply(a, vs[0], t, pads)
      case Thrown(e) => Run(vs, [], Some(e))
      case Normal(st) =>
        var r := RunAll(a, vs[1..], t, pads);
        Run([st.view] + r.views, st.calls + r.calls, r.error)
  }

  /** Turns `0 .. k-1` of the run do not throw. */
  ghost predicate NoThrowBefore(a: Action, vs: seq<GroupView>, k: nat, t: KeyInput.KeyTable, pads: seq<Gamepad>)
    requires k <= |vs|
  {
    forall j :: 0 <= j < k ==> Apply(a, vs[j], t, pads).Normal?
  }

  /** A run whose first turn does not throw is that turn followed by the
      run over the other groups. */
  lemma RunAllCons(a: Action, vs: seq<GroupView>, t: KeyInput.KeyTable, pads: seq<Gamepad>)
    requires vs != [] && Apply(a, vs[0], t, pads).Normal?
    ensures var st := Apply(a, vs[0], t, pads).value;
      var r := RunAll(a, vs, t, pads);
      var rest := RunAll(a, vs[1..], t, pads);
      r.calls == st.calls + rest.calls && r.error == rest.error && r.views[0] == st.view &&
      (forall j :: 1 <= j < |vs| ==> r.views[j] == rest.views[j - 1])
  {
  }

  /** When the first turn does not throw, no turn before `k + 1` throws
      exactly when none of the others before `k` does. */
  lemma NoThrowShift(a: Action, vs: seq<GroupView>, t: KeyInput.KeyTable, pads: seq<Gamepad>)
    requires vs != [] && Apply(a, vs[0], t, pads).Normal?
    ensures forall k: nat :: k < |vs| ==> (NoThrowBefore(a, vs, k + 1, t, pads) <==> NoThrowBefore(a, vs[1..], k, t, pads))
  {
    forall k: nat | k < |vs| ensures NoThrowBefore(a, vs, k + 1, t, pads) <==> NoThrowBefore(a, vs[1..], k, t, pads) {
      assert forall j :: 1 <= j < k + 1 ==> vs[1..][j - 1] == vs[j];
    }
  }

  /** A run has no error exactly when no turn throws, and then every
      group has its own turn's view. */
  lemma {:induction false} RunAllDone(a: Action, vs: seq<GroupView>, t: KeyInput.KeyTable, pads: seq<Gamepad>)
    ensures RunAll(a, vs, t, pads).error.None? <==> NoThrowBefore(a, vs, |vs|, t, pads)
    ensures RunAll(a, vs, t, pads).error.None? ==>
      forall j :: 0 <= j < |vs| ==> RunAll(a, vs, t, pads).views[j] == Apply(a, vs[j], t, pads).value.view
  {
    if vs != [] {
      if Apply(a, vs[0], t, pads).Thrown? {
        assert !NoThrowBefore(a, vs, |vs|, t, pads);
      } else {
        RunAllDone(a, vs[1..], t, pads);
        RunAllCons(a, vs, t, pads);
        NoThrowShift(a, vs, t, pads);
        assert forall j :: 1 <= j < |vs| ==> vs[1..][j - 1] == vs[j];
      }
    }
  }

  /** The run stopped at group `k`: the turns before it did not throw and
      gave those groups their turn's view, `k` threw the run's error, and
      `k` and the groups after it are as they were. */
  ghost predicate StoppedAt(a: Action, vs: seq<GroupView>, k: nat, r: Run, t: KeyInput.KeyTable, pads: seq<Gamepad>)
    requires |r.views| == |vs| && r.error.Some?
  {
    k < |vs| && NoThrowBefore(a, vs, k, t, pads) &&
    Apply(a, vs[k], t, pads) == Thrown(r.error.value) &&
    (forall j :: 0 <= j < k ==> r.views[j] == Apply(a, vs[j], t, pads).value.view) &&
    (forall j :: k <= j < |vs| ==> r.views[j] == vs[j])
  }

  /** A run with an error stopped at some group. */
  lemma {:induction false} RunAllStopped(a: Action, vs: seq<GroupView>, t: KeyInput.KeyTable, pads: seq<Gamepad>)
    ensures RunAll(a, vs, t, pads).error.Some? ==> exists k: nat :: StoppedAt(a, vs, k, RunAll(a, vs, t, pads), t, pads)
  {
    if vs != [] {
      var r := RunAll(a, vs, t, pads);
      if Apply(a, vs[0], t, pads).Thrown? {
        assert StoppedAt(a, vs, 0, r, t, pads);
      } else {
        var rest := RunAll(a, vs[1..], t, pads);
        RunAllStopped(a, vs[1..], t, pads);
        RunAllCons(a, vs, t, pads);
        NoThrowShift(a, vs, t, pads);
        if rest.error.Some? {
          var k: nat :| StoppedAt(a, vs[1..], k, rest, t, pads);
          assert forall j :: 1 <= j < |vs| ==> vs[1..][j - 1] == vs[j];
          assert StoppedAt(a, vs, k + 1, r, t, pads);
        }
      }
    }
  }

  /** The run as the loop sees it after turn `i`: the views and calls of
      the turns taken, then the run over the groups not yet reached. */
  function Prepend(done: seq<GroupView>, calls: seq<Call>, rest: Run): Run
  {
    Run(done + rest.views, calls + rest.calls, rest.error)
  }

  /** One more turn of the loop, when it does not throw. */
  lemma TurnTaken(a: Action, vs: seq<GroupView>, i: nat, done: seq<GroupView>, calls: seq<Call>, t: KeyInput.KeyTable, pads: seq<Gamepad>)
    requires i < |vs| && Apply(a, vs[i], t, pads).Normal?
    ensures var st := Apply(a, vs[i], t, pads).value;
      Prepend(done, calls, RunAll(a, vs[i..], t, pads)) ==
      Prepend(done + [st.view], calls + st.calls, RunAll(a, vs[i + 1..], t, pads))
  {
    assert vs[i..][1..] == vs[i + 1..];
  }

  /** A throwing turn ends the run with the remaining groups untouched. */
  lemma TurnThrown(a: Action, vs: seq<GroupView>, i: nat, t: KeyInput.KeyTable, pads: seq<Gamepad>)
    requires i < |vs| && Apply(a, vs[i], t, pads).Thrown?
    ensures RunAll(a, vs[i..], t, pads) == Run(vs[i..], [], Some(Apply(a, vs[i], t, pads).message))
  {
  }

  /** Pressing never throws, so a key-down fan-out reaches every group;
      each is pressed afterwards, and the calls are, group by group, the
      press listeners of the groups that were not yet pressed. */
  lemma {:induction false} PressAllSpec(vs: seq<GroupView>, t: KeyInput.KeyTable, pads: seq<Gamepad>)
    ensures var r := RunAll(OnPress, vs, t, pads);
      r.error.None? && (forall j :: 0 <= j < |vs| ==> r.views[j] == vs[j].(isPressed := true)) &&
      r.calls == PressCalls(vs)
  {
    if vs != [] {
      PressAllSpec(vs[1..], t, pads);
      var r := RunAll(OnPress, vs, t, pads);
      var rest := RunAll(OnPress, vs[1..], t, pads);
      assert r == Run([DevicePress(vs[0]).view] + rest.views, DevicePress(vs[0]).calls + rest.calls, rest.error);
      forall j | 1 <= j < |vs| ensures r.views[j] == vs[j].(isPressed := true) {
        assert r.views[j] == rest.views[j - 1] && vs[1..][j - 1] == vs[j];
      }
    }
  }

  /** The press listener calls of a key-down fan-out. */
  function PressCalls(vs: seq<GroupView>): seq<Call>
  {
    if vs == [] then []
    else (if vs[0].isPressed then [] else Notify(vs[0].press, vs[0].name)) + PressCalls(vs[1..])
  }

  /** One group bound to key 32: its press listener runs once, with the
      window name ("win" here); pressing the held group again calls nothing. */
  lemma {:induction false} JumpKeyScenario()
    ensures
      var jump := GroupView("win", false, [32], [], [], [1], [2]);
      var r := RunAll(OnPress, [jump], map[], []);
      r == Run([jump.(isPressed := true)], [Call(1, "win")], None) &&
      RunAll(OnPress, r.views, map[], []) == Run(r.views, [], None)
  {
    var jump := GroupView("win", false, [32], [], [], [1], [2]);
    assert DevicePress(jump) == Step(jump.(isPressed := true), [Call(1, "win")]);
    assert [jump][1..] == [];
    var pressed := [jump.(isPressed := true)];
    assert pressed[1..] == [];
  }

  /** Two groups bound to key 65: one key-down presses both, and each
      calls its own press listener, with the window name ("w" here). */
  lemma {:induction false} SharedKeyScenario()
    ensures
      var a := GroupView("w", false, [65], [], [], [1], []);
      var b := GroupView("w", false, [65], [], [], [2], []);
      RunAll(OnPress, [a, b], map[], []) ==
        Run([a.(isPressed := true), b.(isPressed := true)], [Call(1, "w"), Call(2, "w")], None)
  {
    var a := GroupView("w", false, [65], [], [], [1], []);
    var b := GroupView("w", false, [65], [], [], [2], []);
    assert DevicePress(a) == Step(a.(isPressed := true), [Call(1, "w")]);
    assert DevicePress(b) == Step(b.(isPressed := true), [Call(2, "w")]);
    assert [a, b][1..] == [b] && [b][1..] == [];
    assert RunAll(OnPress, [b], map[], []) == Run([b.(isPressed := true)], [Call(2, "w")], None);
  }

  /** What an event on one of the group's element inputs leads to: the
      element's new state, the group's new view and the group listener
      calls (or the error a release check threw). */
  datatype ElementOutcome = ElementOutcome(element: EI.ElementState, view: GroupView, calls: Completion<seq<Call>>)

  /** An accepted element press calls the group's `onDevicePress`. */
  function PressVia(v: GroupView, i: nat, re: EI.Reaction): ElementOutcome
    requires i < |v.elementsPressed|
  {
    var v1 := v.(elementsPressed := v.elementsPressed[i := re.state.isPressed]);
    if re.accepted then ElementOutcome(re.state, DevicePress(v1).view, Normal(DevicePress(v1).calls))
    else ElementOutcome(re.state, v1, Normal([]))
  }

  /** An accepted element release calls the group's `onDeviceRelease`,
      after the element's own bit is already clear. */
  function ReleaseVia(v: GroupView, i: nat, re: EI.Reaction, t: KeyInput.KeyTable, pads: seq<Gamepad>): ElementOutcome
    requires i < |v.elementsPressed|
  {
    var v1 := v.(elementsPressed := v.elementsPressed[i := re.state.isPressed]);
    if !re.accepted then ElementOutcome(re.state, v1, Normal([]))
    else match DeviceRelease(v1, t, pads)
      case Thrown(e) => ElementOutcome(re.state, v1, Thrown(e))
      case Normal(st) => ElementOutcome(re.state, st.view, Normal(st.calls))
  }

  /** One DOM event on the `i`-th element input of a group. */
  function ElementDispatch(v: GroupView, i: nat, s: EI.ElementState, ev: EI.ElementEvent, t: KeyInput.KeyTable, pads: seq<Gamepad>): ElementOutcome
    requires i < |v.elementsPressed|
  {
    match ev
    case MouseDown => PressVia(v, i, EI.PressElement(s, EI.DeviceMouse))
    case TouchStart => PressVia(v, i, EI.PressElement(s, EI.DeviceTouch))
    case MouseUp => ReleaseVia(v, i, EI.ReleaseElement(s, EI.DeviceMouse), t, pads)
    case TouchEnd => ReleaseVia(v, i, EI.ReleaseElement(s, EI.DeviceTouch), t, pads)
    case TouchMove => ElementOutcome(s, v, Normal([]))
  }

  /** While an element is owned by touch, a mouse event on it reaches no
      group listener and changes neither the element nor the group. */
  lemma OtherDeviceReachesNobody(v: GroupView, i: nat, s: EI.ElementState, t: KeyInput.KeyTable, pads: seq<Gamepad>)
    requires i < |v.elementsPressed| && v.elementsPressed[i] == s.isPressed
    requires s.device == EI.DeviceTouch
    ensures ElementDispatch(v, i, s, EI.MouseDown, t, pads) == ElementOutcome(s, v, Normal([]))
    ensures ElementDispatch(v, i, s, EI.MouseUp, t, pads) == ElementOutcome(s, v, Normal([]))
  {
    assert v.elementsPressed[i := s.isPressed] == v.elementsPressed;
  }

  /** Lifting a finger off one element does not release a group that a
      key still holds, and calls no release listener. */
  lemma {:induction false} ElementReleaseHeldByKey(v: GroupView, i: nat, s: EI.ElementState, t: KeyInput.KeyTable, pads: seq<Gamepad>)
    requires i < |v.elementsPressed| && v.isPressed && KeyPressed(v, t)
    ensures var o := ElementDispatch(v, i, s, EI.TouchEnd, t, pads);
      o.view.isPressed && o.calls == Normal([])
  {
    var re := EI.ReleaseElement(s, EI.DeviceTouch);
    var v1 := v.(elementsPressed := v.elementsPressed[i := re.state.isPressed]);
    assert v1.keyCodes == v.keyCodes;
    assert KeyPressed(v1, t);
  }

  /** The first touch on an element of an unpressed group presses the
      group and calls each of its press listeners once. */
  lemma TouchPressesGroup(v: GroupView, i: nat, t: KeyInput.KeyTable, pads: seq<Gamepad>)
    requires i < |v.elementsPressed| && !v.isPressed
    ensures var o := ElementDispatch(v, i, EI.InitialState, EI.TouchStart, t, pads);
      o.element == EI.ElementState(true, EI.DeviceTouch, 0) &&
      o.view.isPressed && o.view.elementsPressed[i] &&
      o.calls == Normal(Notify(v.press, v.name))
  {
  }
}
