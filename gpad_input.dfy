/** Gamepad control adapters (src/GpadInput.ts): a button or a signed axis of
    the gamepad with a given id, read from the connected-gamepad list that
    `gpad.getConnectedGamepads()` returns (the parameter `pads`). */
module GpadInput {
  import opened Common
  import opened Gpad

  /** `clamp(n, min, max)` = `Math.min(Math.max(n, min), max)`. */
  function Clamp(n: real, lo: real, hi: real): (r: real)
    ensures lo <= hi ==> lo <= r <= hi
    ensures lo <= n <= hi ==> r == n
    ensures r <= hi && (r == hi || r == n || r == lo)
  {
    var m := if n > lo then n else lo;
    if m < hi then m else hi
  }

  /** A JavaScript number as the adapters can produce it. */
  datatype Number = Num(v: real) | NaN

  /** `Math.max(a, b)`: NaN when either operand is NaN. */
  function Max(a: Number, b: Number): (r: Number)
    ensures r.Num? <==> a.Num? && b.Num?
    ensures r.Num? ==> r.v >= a.v && r.v >= b.v && (r.v == a.v || r.v == b.v)
  {
    if a.NaN? || b.NaN? then NaN
    else if a.v >= b.v then a else b
  }

  /** `clamp` on a number that may be NaN (every comparison with NaN fails,
      and `Math.max` / `Math.min` propagate it). */
  function ClampNumber(n: Number, lo: real, hi: real): (r: Number)
    ensures r.Num? <==> n.Num?
    ensures r.Num? ==> r.v == Clamp(n.v, lo, hi)
  {
    if n.NaN? then NaN else Num(Clamp(n.v, lo, hi))
  }

  type AxisSign = s: int | s == 1 || s == -1 witness 1

  /** A `GpadInputButton` or a `GpadInputAxis`. */
  datatype GpadInput =
    | Button(gamepadId: string, buttonId: int)
    | Axis(gamepadId: string, axisId: int, axisSign: AxisSign)

  /** The argument of `GpadInput.create`: its `type` tag and the fields
      of both variants. */
  datatype GpadInputInfo = GpadInputInfo(kind: string, gamepadId: string, buttonId: int, axisId: int, axisSign: AxisSign)

  /** `GpadInput.create(info)`: an axis exactly when the tag is 'axis'. */
  function Create(info: GpadInputInfo): (c: GpadInput)
    ensures c.Axis? <==> info.kind == "axis"
    ensures c.gamepadId == info.gamepadId
    ensures c.Axis? ==> c.axisId == info.axisId && c.axisSign == info.axisSign
    ensures c.Button? ==> c.buttonId == info.buttonId
  {
    if info.kind == "axis" then Axis(info.gamepadId, info.axisId, info.axisSign)
    else Button(info.gamepadId, info.buttonId)
  }

  /** `value()`. With no connected gamepad of that id it is 0. A button
      index outside `buttons` reads `undefined.value`, which throws; an axis
      index outside `axes` multiplies `undefined`, which gives NaN. */
  function Value(c: GpadInput, pads: seq<Gamepad>): (r: Completion<Number>)
  {
    match FindById(pads, c.gamepadId)
    case None => Normal(Num(0.0))
    case Some(gp) =>
      match c
      case Button(_, b) =>
        if 0 <= b < |gp.buttons| then Normal(Num(Clamp(gp.buttons[b], 0.0, 1.0)))
        else Thrown("TypeError: Cannot read properties of undefined (reading 'value')")
      case Axis(_, a, sign) =>
        if 0 <= a < |gp.axes| then Normal(Num(Clamp(gp.axes[a] * sign as real, 0.0, 1.0)))
        else Normal(NaN)
  }

  /** Whether the control reads a number: its pad is absent, or its index is
      inside the pad's list. */
  predicate Readable(c: GpadInput, pads: seq<Gamepad>)
  {
    Value(c, pads).Normal? && Value(c, pads).value.Num?
  }

  /** `pressed()` = `value() > 0.75`; a NaN value is not pressed and a
      throwing read throws. */
  function Pressed(c: GpadInput, pads: seq<Gamepad>): (r: Completion<bool>)
    ensures r.Normal? <==> Value(c, pads).Normal?
    ensures r.Normal? ==> (r.value <==> Value(c, pads).value.Num? && Value(c, pads).value.v > 0.75)
  {
    match Value(c, pads)
    case Thrown(e) => Thrown(e)
    case Normal(n) => Normal(n.Num? && n.v > 0.75)
  }

  /** The value of a control is 0 when its pad is absent, is the clamped
      button or signed axis value when the index is in range, and lies in
      [0, 1] whenever it is a number. */
  lemma ValueSpec(c: GpadInput, pads: seq<Gamepad>)
    ensures FindById(pads, c.gamepadId).None? ==> Value(c, pads) == Normal(Num(0.0))
    ensures Value(c, pads).Normal? && Value(c, pads).value.Num? ==> 0.0 <= Value(c, pads).value.v <= 1.0
    ensures Value(c, pads).Thrown? <==>
      c.Button? && FindById(pads, c.gamepadId).Some? &&
      !(0 <= c.buttonId < |FindById(pads, c.gamepadId).value.buttons|)
    ensures Value(c, pads) == Normal(NaN) <==>
      c.Axis? && FindById(pads, c.gamepadId).Some? &&
      !(0 <= c.axisId < |FindById(pads, c.gamepadId).value.axes|)
  {
  }

  /** Two axis controls on the same axis of the same pad with opposite
      signs are never both positive, and at a full deflection of ±1 the
      matching sign reads 1 and the other reads 0. */
  lemma OppositeAxes(id: string, axis: int, pads: seq<Gamepad>)
    ensures
      var plus := Value(Axis(id, axis, 1), pads);
      var minus := Value(Axis(id, axis, -1), pads);
      plus.Normal? && minus.Normal? &&
      !(plus.value.Num? && plus.value.v > 0.0 && minus.value.Num? && minus.value.v > 0.0)
    ensures
      var gp := FindById(pads, id);
      gp.Some? && 0 <= axis < |gp.value.axes| && gp.value.axes[axis] == 1.0 ==>
        Value(Axis(id, axis, 1), pads) == Normal(Num(1.0)) && Value(Axis(id, axis, -1), pads) == Normal(Num(0.0))
    ensures
      var gp := FindById(pads, id);
      gp.Some? && 0 <= axis < |gp.value.axes| && gp.value.axes[axis] == -1.0 ==>
        Value(Axis(id, axis, -1), pads) == Normal(Num(1.0)) && Value(Axis(id, axis, 1), pads) == Normal(Num(0.0))
  {
  }

  /** A control whose pad is absent is never pressed; a button reading
      exactly 0.75 is not pressed, anything above is. */
  lemma PressedThreshold(c: GpadInput, pads: seq<Gamepad>)
    ensures FindById(pads, c.gamepadId).None? ==> Pressed(c, pads) == Normal(false)
    ensures Value(c, pads) == Normal(Num(0.75)) ==> Pressed(c, pads) == Normal(false)
    ensures Readable(c, pads) ==> (Pressed(c, pads) == Normal(true) <==> Value(c, pads).value.v > 0.75)
  {
  }
}
