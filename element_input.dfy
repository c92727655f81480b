/** Mouse and touch input on a page element (src/ElementInput.ts): a
    pressed bit and a three-valued slot naming the device kind that owns
    the element. A press or release from the other kind is ignored, and the
    slot is cleared only by a timer that each accepted release starts. The
    page element is a `DomElement` holding the listeners attached to it. */
module ElementInput {

  datatype Device = DeviceNone | DeviceMouse | DeviceTouch

  /** The events the element input listens to, in the key order of its
      `listeners` record. */
  datatype ElementEvent = MouseDown | MouseUp | TouchStart | TouchEnd | TouchMove

  const ListenerEvents: seq<ElementEvent> := [MouseDown, MouseUp, TouchStart, TouchEnd, TouchMove]

  /** `IOS_SNUFF_EVENTS`. */
  const IosSnuffEvents: seq<string> := ["dblclick"]

  /** A listener attached to a page element: one of the five handlers of an
      element input, or a handler that only calls `preventDefault` on a
      named event. */
  datatype DomListener = Handler(event: ElementEvent, owner: ElementInput) | Preventer(name: string)

  /** A page element; only its attached listeners are modelled. */
  class DomElement {
    var listeners: multiset<DomListener>

    constructor ()
      ensures listeners == multiset{}
    {
      listeners := multiset{};
    }
  }

  /** The five handlers of one element input. */
  function Handlers(owner: ElementInput): (h: multiset<DomListener>)
    ensures |h| == 5
    ensures forall l :: l in h ==> l.Handler? && l.owner == owner
  {
    HandlersFor(ListenerEvents, owner)
  }

  /** The listeners `snuffiOSEvents` attaches. */
  function Snuffed(isIOS: bool, iOSHacks: bool): (p: multiset<DomListener>)
    ensures p != multiset{} <==> isIOS && iOSHacks
    ensures forall l :: l in p ==> l == Preventer("dblclick")
  {
    if isIOS && iOSHacks then multiset{Preventer("dblclick")} else multiset{}
  }

  /** `snuffiOSEvents(el)`: on iOS with `config.iOSHacks` set, one
      default-preventing listener per event of `IOS_SNUFF_EVENTS`. */
  method SnuffIosEvents(el: DomElement, isIOS: bool, iOSHacks: bool)
    modifies el
    ensures el.listeners == old(el.listeners) + Snuffed(isIOS, iOSHacks)
  {
    if !isIOS || !iOSHacks {
      return;
    }
    for i := 0 to |IosSnuffEvents|
      invariant el.listeners == old(el.listeners) + Preventers(IosSnuffEvents[..i])
    {
      assert IosSnuffEvents[..i + 1] == IosSnuffEvents[..i] + [IosSnuffEvents[i]];
      PreventersSnoc(IosSnuffEvents[..i], IosSnuffEvents[i]);
      el.listeners := el.listeners + multiset{Preventer(IosSnuffEvents[i])};
    }
    assert IosSnuffEvents[..1] == IosSnuffEvents;
    assert Preventers(IosSnuffEvents) == multiset{Preventer("dblclick")} by {
      assert IosSnuffEvents[1..] == [];
    }
  }

  /** One default-preventing listener per event name. */
  function Preventers(names: seq<string>): multiset<DomListener>
  {
    if names == [] then multiset{}
    else multiset{Preventer(names[0])} + Preventers(names[1..])
  }

  /** The handlers of `owner` for the given events. */
  function HandlersFor(events: seq<ElementEvent>, owner: ElementInput): (h: multiset<DomListener>)
    ensures |h| == |events|
    ensures forall l :: l in h ==> l.Handler? && l.owner == owner
  {
    if events == [] then multiset{}
    else multiset{Handler(events[0], owner)} + HandlersFor(events[1..], owner)
  }

  lemma {:induction false} PreventersSnoc(names: seq<string>, n: string)
    ensures Preventers(names + [n]) == Preventers(names) + multiset{Preventer(n)}
  {
    if names == [] {
      assert names + [n] == [n];
      assert [n][1..] == [];
    } else {
      assert (names + [n])[1..] == names[1..] + [n];
      PreventersSnoc(names[1..], n);
    }
  }

  lemma {:induction false} HandlersForSnoc(events: seq<ElementEvent>, e: ElementEvent, owner: ElementInput)
    ensures HandlersFor(events + [e], owner) == HandlersFor(events, owner) + multiset{Handler(e, owner)}
  {
    if events == [] {
      assert events + [e] == [e];
      assert [e][1..] == [];
    } else {
      assert (events + [e])[1..] == events[1..] + [e];
      HandlersForSnoc(events[1..], e, owner);
    }
  }

  lemma MinusMinus(m: multiset<DomListener>, a: multiset<DomListener>, b: multiset<DomListener>)
    ensures (m - a) - b == m - (a + b)
  {
    forall l ensures ((m - a) - b)[l] == (m - (a + b))[l] {
    }
  }

  /** The attaching loop of the element input constructor, over the
      event names of `ListenerEvents`. */
  method AttachHandlers(el: DomElement, events: seq<ElementEvent>, owner: ElementInput)
    modifies el
    ensures el.listeners == old(el.listeners) + HandlersFor(events, owner)
  {
    for i := 0 to |events|
      invariant el.listeners == old(el.listeners) + HandlersFor(events[..i], owner)
    {
      ghost var mid := el.listeners;
      el.listeners := el.listeners + multiset{Handler(events[i], owner)};
      HandlerStep(events, i, owner, old(el.listeners), mid, el.listeners);
    }
    assert events[..|events|] == events;
  }

  lemma HandlerStep(events: seq<ElementEvent>, i: nat, owner: ElementInput,
                    before: multiset<DomListener>, mid: multiset<DomListener>, now: multiset<DomListener>)
    requires i < |events|
    requires mid == before + HandlersFor(events[..i], owner)
    requires now == mid + multiset{Handler(events[i], owner)}
    ensures now == before + HandlersFor(events[..i + 1], owner)
  {
    assert events[..i + 1] == events[..i] + [events[i]];
    HandlersForSnoc(events[..i], events[i], owner);
  }

  /** The state an element input's behaviour depends on: the pressed bit,
      the device slot, and how many deferred resets are still to fire. */
  datatype ElementState = ElementState(isPressed: bool, device: Device, pendingResets: nat)

  /** The result of a press or release: the new state, and whether it was
      accepted, which is when the `onPress` / `onRelease` callback runs. */
  datatype Reaction = Reaction(state: ElementState, accepted: bool)

  const InitialState := ElementState(false, DeviceNone, 0)

  /** A device other than the one in a non-empty slot is ignored. */
  predicate Accepts(s: ElementState, d: Device)
  {
    s.device == DeviceNone || s.device == d
  }

  /** `onPressElement(device)`. */
  function PressElement(s: ElementState, d: Device): (r: Reaction)
  {
    if !Accepts(s, d) then Reaction(s, false)
    else Reaction(s.(device := d, isPressed := true), true)
  }

  /** `onReleaseElement(device)`: clears the pressed bit at once and starts
      a timer that will clear the slot. */
  function ReleaseElement(s: ElementState, d: Device): (r: Reaction)
  {
    if !Accepts(s, d) then Reaction(s, false)
    else Reaction(s.(isPressed := false, pendingResets := s.pendingResets + 1), true)
  }

  /** The deferred callback of one of those timers. */
  function ResetFires(s: ElementState): (r: ElementState)
    requires s.pendingResets > 0
  {
    s.(device := DeviceNone, pendingResets := s.pendingResets - 1)
  }

  /** A press from the wrong kind of device changes nothing; an accepted
      press takes the slot and sets the pressed bit even when it was already
      set; only a timer clears the slot, never a release. */
  lemma PressSpec(s: ElementState, d: Device)
    requires d != DeviceNone
    ensures !Accepts(s, d) ==> PressElement(s, d) == Reaction(s, false)
    ensures Accepts(s, d) ==>
      PressElement(s, d).accepted && PressElement(s, d).state.isPressed &&
      PressElement(s, d).state.device == d &&
      PressElement(s, d).state.pendingResets == s.pendingResets
    ensures ReleaseElement(s, d).state.device == s.device
    ensures !Accepts(s, d) ==> ReleaseElement(s, d) == Reaction(s, false)
    ensures Accepts(s, d) ==>
      ReleaseElement(s, d).accepted && !ReleaseElement(s, d).state.isPressed &&
      ReleaseElement(s, d).state.pendingResets == s.pendingResets + 1
  {
  }

  /** The ghost mouse event: after a touch press and release, a mouse
      press is ignored until the timer has fired, and accepted afterwards. */
  lemma {:induction false} TouchThenMouse()
    ensures
      var s1 := PressElement(InitialState, DeviceTouch).state;
      var s2 := ReleaseElement(s1, DeviceTouch).state;
      && s2 == ElementState(false, DeviceTouch, 1)
      && PressElement(s2, DeviceMouse) == Reaction(s2, false)
      && PressElement(ResetFires(s2), DeviceMouse).accepted
      && PressElement(ResetFires(s2), DeviceMouse).state == ElementState(true, DeviceMouse, 0)
  {
    var s1 := PressElement(InitialState, DeviceTouch).state;
    assert s1 == ElementState(true, DeviceTouch, 0);
    var s2 := ReleaseElement(s1, DeviceTouch).state;
    assert s2 == ElementState(false, DeviceTouch, 1);
    assert ResetFires(s2) == ElementState(false, DeviceNone, 0);
  }

  /** While one device kind holds the slot the other kind can neither
      press nor release, whatever sequence of its events arrives. */
  lemma {:induction false} OtherDeviceIgnored(s: ElementState, d: Device, events: seq<bool>)
    requires s.device != DeviceNone && d != s.device
    ensures OtherRun(s, d, events) == s
    decreases |events|
  {
    if events != [] {
      OtherDeviceIgnored(s, d, events[1..]);
    }
  }

  /** The state after presses (`true`) and releases (`false`) from `d`. */
  function OtherRun(s: ElementState, d: Device, events: seq<bool>): ElementState
    decreases |events|
  {
    if events == [] then s
    else
      var r := if events[0] then PressElement(s, d) else ReleaseElement(s, d);
      OtherRun(r.state, d, events[1..])
  }

  /** `value()`: the pressed bit as a number. */
  function ElementValue(isPressed: bool): (v: real)
    ensures v == 1.0 <==> isPressed
    ensures v == 0.0 <==> !isPressed
  {
    if isPressed then 1.0 else 0.0
  }

  /** An element input. `hasOnPress` / `hasOnRelease` say whether the
      optional callbacks were given; calling them is reported to the caller. */
  class ElementInput {
    var isPressed: bool
    var device: Device
    const element: DomElement
    const hasOnPress: bool
    const hasOnRelease: bool
    /** Timers started by accepted releases that have not fired yet. */
    var pendingResets: nat

    function State(): (s: ElementState)
      reads this
      ensures s.isPressed == isPressed && s.device == device && s.pendingResets == pendingResets
    {
      ElementState(isPressed, device, pendingResets)
    }

    /** `new ElementInput(info)`: unpressed with an empty slot; snuffs the
        iOS events on the element, then attaches the five handlers. */
    constructor (el: DomElement, hasOnPress: bool, hasOnRelease: bool, isIOS: bool, iOSHacks: bool)
      modifies el
      ensures State() == InitialState && element == el
      ensures this.hasOnPress == hasOnPress && this.hasOnRelease == hasOnRelease
      ensures el.listeners == old(el.listeners) + Snuffed(isIOS, iOSHacks) + Handlers(this)
    {
      isPressed := false;
      device := DeviceNone;
      element := el;
      this.hasOnPress := hasOnPress;
      this.hasOnRelease := hasOnRelease;
      pendingResets := 0;
      new;
      SnuffIosEvents(el, isIOS, iOSHacks);
      AttachHandlers(el, ListenerEvents, this);
    }

    /** `onPressElement(device)`; `calledBack` says whether `onPress` ran. */
    method OnPressElement(d: Device) returns (calledBack: bool)
      modifies this
      ensures State() == PressElement(old(State()), d).state
      ensures calledBack == (PressElement(old(State()), d).accepted && hasOnPress)
    {
      if device != DeviceNone && device != d {
        return false;
      }
      device := d;
      isPressed := true;
      calledBack := hasOnPress;
    }

    /** `onReleaseElement(device)`; `calledBack` says whether `onRelease` ran. */
    method OnReleaseElement(d: Device) returns (calledBack: bool)
      modifies this
      ensures State() == ReleaseElement(old(State()), d).state
      ensures calledBack == (ReleaseElement(old(State()), d).accepted && hasOnRelease)
    {
      if device != DeviceNone && device != d {
        return false;
      }
      isPressed := false;
      pendingResets := pendingResets + 1;
      calledBack := hasOnRelease;
    }

    /** One of the timers started by `onReleaseElement` fires. */
    method DeferredReset()
      requires pendingResets > 0
      modifies this
      ensures State() == ResetFires(old(State()))
    {
      device := DeviceNone;
      pendingResets := pendingResets - 1;
    }

    /** One of the five handlers runs. Touchmove only prevents the default
        action; the others forward to `onPressElement` / `onReleaseElement`
        with their device kind. */
    method HandleEvent(ev: ElementEvent) returns (prevented: bool, pressCalled: bool, releaseCalled: bool)
      modifies this
      ensures prevented <==> ev == TouchMove
      ensures ev == TouchMove ==> State() == old(State()) && !pressCalled && !releaseCalled
      ensures ev == MouseDown || ev == TouchStart ==>
        var d := if ev == MouseDown then DeviceMouse else DeviceTouch;
        State() == PressElement(old(State()), d).state && !releaseCalled &&
        pressCalled == (PressElement(old(State()), d).accepted && hasOnPress)
      ensures ev == MouseUp || ev == TouchEnd ==>
        var d := if ev == MouseUp then DeviceMouse else DeviceTouch;
        State() == ReleaseElement(old(State()), d).state && !pressCalled &&
        releaseCalled == (ReleaseElement(old(State()), d).accepted && hasOnRelease)
    {
      prevented, pressCalled, releaseCalled := false, false, false;
      match ev
      case MouseDown => pressCalled := OnPressElement(DeviceMouse);
      case MouseUp => releaseCalled := OnReleaseElement(DeviceMouse);
      case TouchStart => pressCalled := OnPressElement(DeviceTouch);
      case TouchEnd => releaseCalled := OnReleaseElement(DeviceTouch);
      case TouchMove => prevented := true;
    }

    function Pressed(): bool
      reads this
    {
      isPressed
    }

    function Value(): (v: real)
      reads this
      ensures v == ElementValue(isPressed)
    {
      if isPressed then 1.0 else 0.0
    }

    /** `removeListeners()`: detaches this input's five handlers and leaves
        every other listener, the iOS preventers included. */
    method RemoveListeners()
      modifies element
      ensures element.listeners == old(element.listeners) - Handlers(this)
    {
      ghost var before := element.listeners;
      for i := 0 to |ListenerEvents|
        invariant element.listeners == before - HandlersFor(ListenerEvents[..i], this)
      {
        assert ListenerEvents[..i + 1] == ListenerEvents[..i] + [ListenerEvents[i]];
        HandlersForSnoc(ListenerEvents[..i], ListenerEvents[i], this);
        MinusMinus(before, HandlersFor(ListenerEvents[..i], this), multiset{Handler(ListenerEvents[i], this)});
        element.listeners := element.listeners - multiset{Handler(ListenerEvents[i], this)};
      }
      assert ListenerEvents[..5] == ListenerEvents;
    }
  }

  /** Attaching an input's handlers and detaching them again leaves the
      element's other listeners, the iOS preventer among them, in place. */
  lemma AttachDetach(before: multiset<DomListener>, owner: ElementInput, isIOS: bool, iOSHacks: bool)
    requires forall l :: l in before ==> !(l.Handler? && l.owner == owner)
    ensures (before + Snuffed(isIOS, iOSHacks) + Handlers(owner)) - Handlers(owner) == before + Snuffed(isIOS, iOSHacks)
    ensures isIOS && iOSHacks ==> Preventer("dblclick") in (before + Snuffed(isIOS, iOSHacks) + Handlers(owner)) - Handlers(owner)
  {
  }
}
