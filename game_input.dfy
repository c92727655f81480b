/** The abstract device base (src/GameInput.ts): its constructor registers
    the optional `onPress` / `onRelease` callbacks on its own emitter under
    the ids 'press' and 'release'. The abstract `pressed()` / `value()`
    interface is given by each device module's own functions. */
module GameInput {
  import opened Common
  import opened InputEmitter

  /** The constructor's optional argument; absent callbacks are `None`. */
  datatype GameInputInfo = GameInputInfo(onPress: Option<nat>, onRelease: Option<nat>)

  /** `info = {}`, the default argument. */
  const DefaultInfo := GameInputInfo(None, None)

  /** The emitter map the constructor leaves: a successful `on` per supplied callback. */
  function Wired(info: GameInputInfo): map<string, seq<Callback>>
  {
    var m := if info.onPress.Some? then Added(map[], "press", Fn(info.onPress.value)) else map[];
    if info.onRelease.Some? then Added(m, "release", Fn(info.onRelease.value)) else m
  }

  /** Only 'press' and 'release' are ever created, each exactly when its
      callback is supplied, holding that one callback. The same function
      given for both ends up once under each id; the default info wires
      nothing. */
  lemma WiredShape(info: GameInputInfo)
    ensures WellFormed(Wired(info))
    ensures forall id :: id in Wired(info) ==> id == "press" || id == "release"
    ensures "press" in Wired(info) <==> info.onPress.Some?
    ensures "release" in Wired(info) <==> info.onRelease.Some?
    ensures info.onPress.Some? ==> Wired(info)["press"] == [Fn(info.onPress.value)]
    ensures info.onRelease.Some? ==> Wired(info)["release"] == [Fn(info.onRelease.value)]
    ensures info.onPress.Some? && info.onPress == info.onRelease ==>
      Wired(info) == map["press" := [Fn(info.onPress.value)], "release" := [Fn(info.onPress.value)]]
    ensures Wired(DefaultInfo) == map[]
  {
    var m := if info.onPress.Some? then Added(map[], "press", Fn(info.onPress.value)) else map[];
    assert WellFormed(map[]);
    if info.onPress.Some? {
      AddedSpec(map[], "press", Fn(info.onPress.value));
    }
    if info.onRelease.Some? {
      AddedSpec(m, "release", Fn(info.onRelease.value));
    }
  }

  /** `new GameInput(info)`: a fresh emitter wired as `Wired` says. */
  method Construct(info: GameInputInfo) returns (e: Emitter)
    ensures fresh(e) && e.Valid()
    ensures e.listeners == Wired(info)
  {
    e := new Emitter();
    if info.onPress.Some? {
      var _ := e.On(Typed("press"), Typed(Fn(info.onPress.value)));
    }
    if info.onRelease.Some? {
      var _ := e.On(Typed("release"), Typed(Fn(info.onRelease.value)));
    }
  }
}
