/** The input-group registry (src/index.ts): named groups of keys, gamepad
    controls and page elements, each with an edge-triggered pressed bit and
    press / release listener lists, kept in the module's `inputs`
    dictionary. The registry installs the global key listeners exactly
    while some group has keys. The global `name` that each group copies is
    the constant `windowName`; the connected-gamepad list that gamepad reads
    return is the parameter `pads`. */
module Index {
  import opened Common
  import KeyInput
  import opened Gpad
  import GI = GpadInput
  import opened ElementInput
  import opened GroupState

  /** `GameInputGroupInfo`; an absent optional list is the empty list. */
  datatype GroupInfo = GroupInfo(
    name: Dyn<string>,
    keyCodes: seq<int>,
    gamepadControls: seq<GI.GpadInputInfo>,
    elements: seq<DomElement>)

  /** The key codes of a key list. */
  function KeyCodes(keys: seq<KeyInput.KeyInput>): (codes: seq<int>)
    ensures |codes| == |keys|
    ensures forall i :: 0 <= i < |keys| ==> codes[i] == keys[i].code
  {
    if keys == [] then [] else [keys[0].code] + KeyCodes(keys[1..])
  }

  /** `keyCodes.map(code => new KeyInput(code))`. */
  function MakeKeys(codes: seq<int>): (keys: seq<KeyInput.KeyInput>)
    ensures |keys| == |codes|
    ensures forall i :: 0 <= i < |codes| ==> keys[i] == KeyInput.NewKeyInput(codes[i])
  {
    if codes == [] then [] else [KeyInput.NewKeyInput(codes[0])] + MakeKeys(codes[1..])
  }

  /** `gamepadControls.map(i => GpadInput.create(i))`. */
  function MakeCtrls(infos: seq<GI.GpadInputInfo>): (ctrls: seq<GI.GpadInput>)
    ensures |ctrls| == |infos|
    ensures forall i :: 0 <= i < |infos| ==> ctrls[i] == GI.Create(infos[i])
  {
    if infos == [] then [] else [GI.Create(infos[0])] + MakeCtrls(infos[1..])
  }

  /** The key inputs made from a list of codes have those codes. */
  lemma KeysOfCodes(codes: seq<int>)
    ensures KeyCodes(MakeKeys(codes)) == codes
  {
    var ks := KeyCodes(MakeKeys(codes));
    assert forall i :: 0 <= i < |codes| ==> ks[i] == codes[i];
  }

  /** The view of a newly made group: named after the global name, up, no
      listeners, the info's key codes and controls, and every element up. */
  function FreshView(info: GroupInfo, windowName: string): GroupView
  {
    GroupView(windowName, false, info.keyCodes, MakeCtrls(info.gamepadControls), seq(|info.elements|, _ => false), [], [])
  }

  /** The pressed bits of a list of element inputs. */
  function PressedBits(es: seq<ElementInput>): (bits: seq<bool>)
    reads es
    ensures |bits| == |es|
    ensures forall i :: 0 <= i < |es| ==> bits[i] == es[i].isPressed
  {
    if es == [] then [] else [es[0].isPressed] + PressedBits(es[1..])
  }

  /** The listeners a list of element inputs has put on page element `d`:
      for each input on `d`, the `extra` listeners and its five handlers. */
  function AttachedOn(d: DomElement, ins: seq<ElementInput>, extra: multiset<DomListener>): multiset<DomListener>
  {
    if ins == [] then multiset{}
    else
      AttachedOn(d, ins[..|ins| - 1], extra) +
      (if ins[|ins| - 1].element == d then extra + Handlers(ins[|ins| - 1]) else multiset{})
  }

  /** The page elements of a list of element inputs. */
  function DomsOf(ins: seq<ElementInput>): set<DomElement>
  {
    set e | e in ins :: e.element
  }

  /** No element input of `ins` listens on an element outside `DomsOf(ins)`. */
  lemma {:induction false} AttachedElsewhere(d: DomElement, ins: seq<ElementInput>, extra: multiset<DomListener>)
    requires d !in DomsOf(ins)
    ensures AttachedOn(d, ins, extra) == multiset{}
  {
    if ins != [] {
      var last := ins[|ins| - 1];
      assert last in ins && last.element != d;
      assert DomsOf(ins[..|ins| - 1]) <= DomsOf(ins) by {
        forall e | e in ins[..|ins| - 1] ensures e in ins { }
      }
      AttachedElsewhere(d, ins[..|ins| - 1], extra);
    }
  }

  /** Element inputs built over `els`, one per element, listen on no element
      outside `els`. */
  lemma AttachedOutside(d: DomElement, ins: seq<ElementInput>, els: seq<DomElement>, extra: multiset<DomListener>)
    requires |ins| == |els| && forall i :: 0 <= i < |ins| ==> ins[i].element == els[i]
    requires d !in els
    ensures AttachedOn(d, ins, extra) == multiset{}
  {
    forall e | e in ins ensures e.element != d {
      var i :| 0 <= i < |ins| && ins[i] == e;
    }
    AttachedElsewhere(d, ins, extra);
  }

  /** `info.elements.map(el => new ElementInput({element: el, onPress, onRelease}))`,
      with both callbacks given. */
  method MakeElements(els: seq<DomElement>, isIOS: bool, iOSHacks: bool) returns (ins: seq<ElementInput>)
    modifies els
    ensures |ins| == |els| && NoDups(ins)
    ensures forall i :: 0 <= i < |els| ==>
      fresh(ins[i]) && ins[i].element == els[i] && ins[i].State() == InitialState &&
      ins[i].hasOnPress && ins[i].hasOnRelease
    ensures forall d :: d in els ==> d.listeners == old(d.listeners) + AttachedOn(d, ins, Snuffed(isIOS, iOSHacks))
  {
    ins := [];
    for i := 0 to |els|
      invariant |ins| == i && NoDups(ins)
      invariant forall k :: 0 <= k < i ==>
        fresh(ins[k]) && ins[k].element == els[k] && ins[k].State() == InitialState &&
        ins[k].hasOnPress && ins[k].hasOnRelease
      invariant forall d :: d in els ==> d.listeners == old(d.listeners) + AttachedOn(d, ins, Snuffed(isIOS, iOSHacks))
    {
      label Before:
      var e := MakeElement(els, i, isIOS, iOSHacks);
      forall d | d in els
        ensures d.listeners == old(d.listeners) + AttachedOn(d, ins + [e], Snuffed(isIOS, iOSHacks))
      {
        AttachStep(d, ins, e, Snuffed(isIOS, iOSHacks), old(d.listeners), old@Before(d.listeners), d.listeners);
      }
      forall a, b | 0 <= a < b < |ins + [e]| ensures (ins + [e])[a] != (ins + [e])[b] {
        if b == |ins| {
          assert (ins + [e])[a] == ins[a];
        }
      }
      ins := ins + [e];
    }
  }

  /** The element input for `els[i]`, with both callbacks given. */
  method MakeElement(els: seq<DomElement>, i: nat, isIOS: bool, iOSHacks: bool) returns (e: ElementInput)
    requires i < |els|
    modifies els[i]
    ensures fresh(e) && e.element == els[i] && e.State() == InitialState && e.hasOnPress && e.hasOnRelease
    ensures forall d :: d in els ==>
      d.listeners == old(d.listeners) + (if d == els[i] then Snuffed(isIOS, iOSHacks) + Handlers(e) else multiset{})
  {
    e := new ElementInput(els[i], true, true, isIOS, iOSHacks);
  }

  /** `for (const ei of input.elements) ei.removeListeners()`: every
      element input takes its five handlers off its page element. */
  method DetachAll(ins: seq<ElementInput>)
    modifies DomsOf(ins)
    ensures forall d :: d in DomsOf(ins) ==> d.listeners == old(d.listeners) - AttachedOn(d, ins, multiset{})
  {
    for i := 0 to |ins|
      invariant forall d :: d in DomsOf(ins) ==> d.listeners == old(d.listeners) - AttachedOn(d, ins[..i], multiset{})
    {
      label Before:
      DetachElement(ins, i);
      forall d | d in DomsOf(ins)
        ensures d.listeners == old(d.listeners) - AttachedOn(d, ins[..i + 1], multiset{})
      {
        DetachStep(d, ins, i, old(d.listeners), old@Before(d.listeners), d.listeners);
      }
    }
    assert ins[..|ins|] == ins;
  }

  /** One step of `DetachAll`: `ins[i].removeListeners()`. */
  method DetachElement(ins: seq<ElementInput>, i: nat)
    requires i < |ins|
    modifies ins[i].element
    ensures forall d :: d in DomsOf(ins) ==>
      d.listeners == old(d.listeners) - (if d == ins[i].element then Handlers(ins[i]) else multiset{})
  {
    ins[i].RemoveListeners();
  }

  lemma DetachStep(d: DomElement, ins: seq<ElementInput>, i: nat, before: multiset<DomListener>,
                   mid: multiset<DomListener>, now: multiset<DomListener>)
    requires i < |ins|
    requires mid == before - AttachedOn(d, ins[..i], multiset{})
    requires now == mid - (if d == ins[i].element then Handlers(ins[i]) else multiset{})
    ensures now == before - AttachedOn(d, ins[..i + 1], multiset{})
  {
    assert ins[..i + 1] == ins[..i] + [ins[i]];
    AttachedSnoc(d, ins[..i], ins[i], multiset{});
    var step := if d == ins[i].element then Handlers(ins[i]) else multiset{};
    assert AttachedOn(d, ins[..i + 1], multiset{}) == AttachedOn(d, ins[..i], multiset{}) + step;
    MinusMinus(before, AttachedOn(d, ins[..i], multiset{}), step);
  }

  /** A sequence that differs from `a` at most at index `i` is `a` updated
      there. */
  lemma UpdatedAt<T>(a: seq<T>, b: seq<T>, i: nat)
    requires |a| == |b| && i < |a|
    requires forall k :: 0 <= k < |a| && k != i ==> b[k] == a[k]
    ensures b == a[i := b[i]]
  {
  }

  lemma AttachStep(d: DomElement, ins: seq<ElementInput>, e: ElementInput, extra: multiset<DomListener>,
                   before: multiset<DomListener>, mid: multiset<DomListener>, now: multiset<DomListener>)
    requires mid == before + AttachedOn(d, ins, extra)
    requires now == mid + (if d == e.element then extra + Handlers(e) else multiset{})
    ensures now == before + AttachedOn(d, ins + [e], extra)
  {
    AttachedSnoc(d, ins, e, extra);
  }

  lemma AttachedSnoc(d: DomElement, ins: seq<ElementInput>, e: ElementInput, extra: multiset<DomListener>)
    ensures AttachedOn(d, ins + [e], extra) ==
      AttachedOn(d, ins, extra) + (if e.element == d then extra + Handlers(e) else multiset{})
  {
    assert (ins + [e])[..|ins|] == ins;
  }

  /** A `GameInputGroup`. Its `listeners.press` / `listeners.release` lists
      are `press` / `release`; every entry of a list has that list's type,
      so only the callbacks are kept. */
  class GameInputGroup {
    const name: string
    var isPressed: bool
    const keys: seq<KeyInput.KeyInput>
    const gpCtrls: seq<GI.GpadInput>
    const elements: seq<ElementInput>
    /** The name the registry keeps this group under. */
    ghost const key: string
    var press: seq<nat>
    var release: seq<nat>

    /** The element inputs are distinct and report to this group. */
    ghost predicate Valid()
    {
      NoDups(elements) &&
      forall i :: 0 <= i < |elements| ==> elements[i].hasOnPress && elements[i].hasOnRelease
    }

    function View(): (v: GroupView)
      reads this, elements
      ensures v.name == name && v.isPressed == isPressed && v.press == press && v.release == release
      ensures v.keyCodes == KeyCodes(keys) && v.ctrls == gpCtrls && v.elementsPressed == PressedBits(elements)
    {
      GroupView(name, isPressed, KeyCodes(keys), gpCtrls, PressedBits(elements), press, release)
    }

    /** `new GameInputGroup(info)`: unpressed, with empty listener lists,
        one key input per code, one control per gamepad control info and
        one element input per page element. */
    constructor (info: GroupInfo, ghost key: string, windowName: string, isIOS: bool, iOSHacks: bool)
      modifies info.elements
      ensures Valid() && this.key == key && name == windowName && !isPressed && press == [] && release == []
      ensures keys == MakeKeys(info.keyCodes) && gpCtrls == MakeCtrls(info.gamepadControls)
      ensures |elements| == |info.elements|
      ensures forall i :: 0 <= i < |elements| ==>
        fresh(elements[i]) && elements[i].element == info.elements[i] && elements[i].State() == InitialState
      ensures forall d :: d in info.elements ==>
        d.listeners == old(d.listeners) + AttachedOn(d, elements, Snuffed(isIOS, iOSHacks))
      ensures View() == FreshView(info, windowName)
    {
      this.key := key;
      name := windowName;
      isPressed := false;
      keys := MakeKeys(info.keyCodes);
      gpCtrls := MakeCtrls(info.gamepadControls);
      var es := MakeElements(info.elements, isIOS, iOSHacks);
      elements := es;
      press := [];
      release := [];
      new;
      KeysOfCodes(info.keyCodes);
      assert PressedBits(elements) == seq(|info.elements|, _ => false);
    }

    /** `onDevicePress`. */
    method OnDevicePress() returns (calls: seq<Call>)
      modifies this
      ensures View() == DevicePress(old(View())).view
      ensures calls == DevicePress(old(View())).calls
    {
      calls := [];
      if isPressed {
        return;
      }
      isPressed := true;
      calls := NotifyAll(press);
    }

    /** The listener loop of `onDevicePress` / `onDeviceRelease`. */
    method NotifyAll(ls: seq<nat>) returns (calls: seq<Call>)
      ensures calls == Notify(ls, name)
    {
      calls := [];
      for i := 0 to |ls|
        invariant calls == Notify(ls[..i], name)
      {
        NotifySnoc(ls[..i], ls[i], name);
        assert ls[..i + 1] == ls[..i] + [ls[i]];
        calls := calls + [Call(ls[i], name)];
      }
      assert ls[..|ls|] == ls;
    }

    /** `onDeviceRelease`; a throwing gamepad read leaves the group as it was. */
    method OnDeviceRelease(table: KeyInput.KeyTable, pads: seq<Gamepad>) returns (r: Completion<seq<Call>>)
      modifies this
      ensures DeviceRelease(old(View()), table, pads).Thrown? ==>
        r == Thrown(DeviceRelease(old(View()), table, pads).message) && View() == old(View())
      ensures DeviceRelease(old(View()), table, pads).Normal? ==>
        View() == DeviceRelease(old(View()), table, pads).value.view &&
        r == Normal(DeviceRelease(old(View()), table, pads).value.calls)
    {
      if !isPressed {
        return Normal([]);
      }
      if KeyPressed(View(), table) {
        return Normal([]);
      }
      if ElementPressed(View()) {
        return Normal([]);
      }
      var held := CtrlsPressed(gpCtrls, pads);
      if held.Thrown? {
        return Thrown(held.message);
      }
      if held.value {
        return Normal([]);
      }
      isPressed := false;
      var calls := NotifyAll(release);
      r := Normal(calls);
    }

    /** One turn of `poll()` for this group. */
    method PollTurn(table: KeyInput.KeyTable, pads: seq<Gamepad>) returns (r: Completion<seq<Call>>)
      modifies this
      ensures PollStep(old(View()), table, pads).Thrown? ==>
        r == Thrown(PollStep(old(View()), table, pads).message) && View() == old(View())
      ensures PollStep(old(View()), table, pads).Normal? ==>
        View() == PollStep(old(View()), table, pads).value.view &&
        r == Normal(PollStep(old(View()), table, pads).value.calls)
    {
      var held := CtrlsPressed(gpCtrls, pads);
      if held.Thrown? {
        return Thrown(held.message);
      }
      if held.value {
        var calls := OnDevicePress();
        r := Normal(calls);
      } else {
        r := OnDeviceRelease(table, pads);
      }
    }

    /** What a fan-out does to this group: `onDevicePress()` for a key
        down, `onDeviceRelease()` for a key up, and the body of `poll()`'s
        loop. A throw leaves the group as it was. */
    method Act(a: Action, table: KeyInput.KeyTable, pads: seq<Gamepad>) returns (r: Completion<seq<Call>>)
      modifies this
      ensures Apply(a, old(View()), table, pads).Thrown? ==>
        r == Thrown(Apply(a, old(View()), table, pads).message) && View() == old(View())
      ensures Apply(a, old(View()), table, pads).Normal? ==>
        View() == Apply(a, old(View()), table, pads).value.view &&
        r == Normal(Apply(a, old(View()), table, pads).value.calls)
    {
      match a
      case OnPress =>
        var calls := OnDevicePress();
        r := Normal(calls);
      case OnRelease =>
        r := OnDeviceRelease(table, pads);
      case OnPoll =>
        r := PollTurn(table, pads);
    }

    /** The `i`-th element input's handler for `ev`; of the group only that
        element's pressed bit can change. */
    method HandleOn(i: nat, ev: ElementEvent) returns (prevented: bool, pressCalled: bool, releaseCalled: bool)
      requires Valid() && i < |elements|
      modifies elements[i]
      ensures prevented <==> ev == TouchMove
      ensures ev == TouchMove ==> elements[i].State() == old(elements[i].State()) && !pressCalled && !releaseCalled
      ensures ev == MouseDown || ev == TouchStart ==>
        var d := if ev == MouseDown then DeviceMouse else DeviceTouch;
        elements[i].State() == PressElement(old(elements[i].State()), d).state && !releaseCalled &&
        pressCalled == PressElement(old(elements[i].State()), d).accepted
      ensures ev == MouseUp || ev == TouchEnd ==>
        var d := if ev == MouseUp then DeviceMouse else DeviceTouch;
        elements[i].State() == ReleaseElement(old(elements[i].State()), d).state && !pressCalled &&
        releaseCalled == ReleaseElement(old(elements[i].State()), d).accepted
      ensures View() == old(View()).(elementsPressed := old(View()).elementsPressed[i := elements[i].isPressed])
    {
      ghost var v0 := View();
      prevented, pressCalled, releaseCalled := elements[i].HandleEvent(ev);
      forall k | 0 <= k < |elements| && k != i ensures PressedBits(elements)[k] == v0.elementsPressed[k] {
        assert elements[k] != elements[i];
      }
      UpdatedAt(v0.elementsPressed, PressedBits(elements), i);
    }

    /** A DOM event on the `i`-th element input: the element's handler
        runs, and an accepted press or release calls this group's
        `onDevicePress` / `onDeviceRelease`. */
    method ElementEvent(i: nat, ev: ElementEvent, table: KeyInput.KeyTable, pads: seq<Gamepad>)
      returns (prevented: bool, r: Completion<seq<Call>>)
      requires Valid() && i < |elements|
      modifies this, elements[i]
      ensures prevented <==> ev == TouchMove
      ensures var o := ElementDispatch(old(View()), i, old(elements[i].State()), ev, table, pads);
        elements[i].State() == o.element && View() == o.view && r == o.calls
    {
      ghost var v0 := View();
      ghost var s0 := elements[i].State();
      var pressCalled, releaseCalled;
      prevented, pressCalled, releaseCalled := HandleOn(i, ev);
      ghost var v1 := v0.(elementsPressed := v0.elementsPressed[i := elements[i].isPressed]);
      r := Normal([]);
      if ev == TouchMove {
        assert v1 == v0;
      } else if ev == MouseDown || ev == TouchStart {
        ghost var re := PressElement(s0, if ev == MouseDown then DeviceMouse else DeviceTouch);
        assert ElementDispatch(v0, i, s0, ev, table, pads) == PressVia(v0, i, re);
        if pressCalled {
          var calls := OnDevicePress();
          r := Normal(calls);
        }
      } else {
        ghost var re := ReleaseElement(s0, if ev == MouseUp then DeviceMouse else DeviceTouch);
        assert ElementDispatch(v0, i, s0, ev, table, pads) == ReleaseVia(v0, i, re, table, pads);
        if releaseCalled {
          r := OnDeviceRelease(table, pads);
        }
      }
    }

    /** `listeners[type].push({type, callback})` unless the callback is
        already in that list. */
    method AddListenerTo(t: EventType, cb: nat)
      modifies this
      ensures t == Press ==> press == AddListener(old(press), cb) && release == old(release)
      ensures t == Release ==> release == AddListener(old(release), cb) && press == old(press)
      ensures isPressed == old(isPressed)
      ensures View() == Listen(old(View()), t, cb)
    {
      if t == Press {
        if cb !in press {
          press := press + [cb];
        }
      } else {
        if cb !in release {
          release := release + [cb];
        }
      }
    }

    /** The backwards search of `off`: the last entry with that callback
        is spliced out. */
    method RemoveListenerFrom(t: EventType, cb: nat) returns (found: bool)
      modifies this
      ensures t == Press ==> press == RemoveLast(old(press), cb) && release == old(release)
      ensures t == Release ==> release == RemoveLast(old(release), cb) && press == old(press)
      ensures found <==> cb in (if t == Press then old(press) else old(release))
      ensures isPressed == old(isPressed)
      ensures View() == Unlisten(old(View()), t, cb)
    {
      var ls := if t == Press then press else release;
      var i := |ls| - 1;
      while i >= 0
        invariant -1 <= i < |ls|
        invariant forall j :: i < j < |ls| ==> ls[j] != cb
      {
        if ls[i] == cb {
          assert LastIndexOf(ls, cb) == i;
          if t == Press {
            press := RemoveAt(ls, i);
          } else {
            release := RemoveAt(ls, i);
          }
          return true;
        }
        i := i - 1;
      }
      assert cb !in ls;
      return false;
    }
  }

  lemma {:induction false} NotifySnoc(ls: seq<nat>, x: nat, name: string)
    ensures Notify(ls + [x], name) == Notify(ls, name) + [Call(x, name)]
  {
    if ls == [] {
      assert ls + [x] == [x];
    } else {
      assert (ls + [x])[1..] == ls[1..] + [x];
      NotifySnoc(ls[1..], x, name);
    }
  }
}
