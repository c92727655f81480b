# Game input groups, modelled in Dafny

The library merges keyboard, mouse/touch and gamepad input into named
logical inputs ("groups"). Each group has an edge-triggered pressed bit, a
live value in [0, 1], and lists of press and release listeners. This project
models the library's TypeScript core as Dafny state machines and functions,
and proves the properties its code promises.

Modules, one per source file:

- `Common` (common.dfy) holds shared datatypes: `Option`, JavaScript
  arguments checked with `typeof` (`Dyn`), and calls that complete normally
  or throw (`Completion`). It also has `indexOf` and `splice` on sequences.
- `InputEmitter` (input_emitter.dfy) is the generic emitter: a map from id to
  a non-empty, duplicate-free callback list. It has `on`/`once`/`off`, plus
  `emit` both as corrected and as written.
- `GameInput` (game_input.dfy) is the device base whose constructor wires
  `onPress`/`onRelease` into the emitter.
- `KeyInput` (key_input.dfy) covers the per-code key input, the global key
  table `keyboardState`, and the one installed keydown/keyup listener pair.
- `ElementInput` (element_input.dfy) covers the mouse/touch element input:
  the pressed bit, the active-device slot, and the deferred reset. Page
  elements are objects that hold their attached listeners.
- `Gpad` (gpad.dfy) covers the throttled gamepad snapshot cache, its
  lookups, and the "connectchange" listener list.
- `GpadInput` (gpad_input.dfy) covers `clamp` and the button and signed-axis
  adapters.
- `GroupState` (group_state.dfy) holds a group's behaviour as pure functions
  of what it observes: `onDevicePress`, `onDeviceRelease`, the poll turn,
  `value()`, and listener add/remove.
- `Index` (index.dfy) has the `GameInputGroup` class, whose methods are
  proved against `GroupState`.
- `Registry` (registry.dfy) has the module-level `inputs` dictionary of
  src/index.ts, with `create`, `destroy`, `on`, `off`, `poll`, `pressed`,
  `value`, `getPressed` and `getValues`. It also has the key fan-out, and it
  keeps this invariant: the global key listeners are installed iff some group
  has keys.

Environment inputs are parameters:

- the browser's gamepad list (`raw`) and the connected-gamepad list the
  adapters read (`pads`);
- the global `name` that every group copies (`windowName`);
- `isIOS`, `config.iOSHacks`, and gamepad support.

Timers and microtasks are explicit steps: `ElementInput.DeferredReset` and
`Gpad.GamepadService.ThrottleReset`. User callbacks are opaque numbers. Each
operation returns the calls it makes, in order.

Where the code and the library's design description disagree, the model
follows the code:

- A group's listeners receive the free global `name`, not `info.name`
  (src/index.ts:38).
- `on` throws for a group that does not exist yet (src/index.ts:268-271).
- `off` on an unknown group throws after its warning (src/index.ts:285-289).
- `destroy` returns `undefined` on its early exits (src/index.ts:207-213).
- `emit` neither isolates callback exceptions nor iterates a snapshot
  (src/InputEmitter.ts:59).

## Model

| member | source | states |
|---|---|---|
| `InputEmitter.Emitter.On` | src/InputEmitter.ts:9-22 | throws exactly on an empty/non-string id or non-function callback; otherwise the callback is appended only if absent |
| `InputEmitter.AddedSpec` | src/InputEmitter.ts:13-21 | registering keeps every list non-empty and duplicate-free, appends a new callback at the end, and leaves every other id unchanged |
| `InputEmitter.Emitter.Once` | src/InputEmitter.ts:24-33 | throws on a non-function callback; otherwise registers a fresh wrapper, one not registered before |
| `InputEmitter.Emitter.Off` | src/InputEmitter.ts:35-52 | throws on bad params; an unknown id or absent callback changes nothing; otherwise removes exactly that callback |
| `InputEmitter.RemovedSpec` | src/InputEmitter.ts:39-51 | removing the only callback deletes the id's entry; otherwise exactly one element leaves; lists stay non-empty and duplicate-free; other ids are unchanged |
| `InputEmitter.OnThenOff` | src/InputEmitter.ts:13-51 | `off` undoes a fresh `on` |
| `InputEmitter.Emitter.Emit` | src/InputEmitter.ts:54-62 | no entry: nothing happens; otherwise each callback present at call time is invoked once, in order, and each `once` wrapper has removed itself afterwards (corrected) |
| `InputEmitter.Emitter.EmitAsWritten` | src/InputEmitter.ts:54-62 | the calls are those of the live, index-based iteration (`LiveEmit`) over the stored list; the new `listeners` is `LiveStore`: each visited once wrapper spliced out, or the entry deleted when its last callback goes; no visited once wrapper is still stored |
| `InputEmitter.LiveStoreSpec` | src/InputEmitter.ts:47-51 | after the live `emit(id)` other ids are untouched, nothing is added under `id`, and every once wrapper the loop called is gone, so it cannot run again |
| `InputEmitter.LiveVisitedGone` | src/InputEmitter.ts:28-31 | a once wrapper visited by the live loop is not in the list left stored |
| `InputEmitter.LiveEmitWithoutWrappers` | src/InputEmitter.ts:59-61 | without `once` wrappers, the live iteration calls every callback in order |
| `InputEmitter.LiveEmitSkipsAfterOnce` | src/InputEmitter.ts:24-33 | as written, the callback right after a self-removing `once` wrapper is skipped |
| `GameInput.WiredShape` | src/GameInput.ts:9-17 | default info creates no entries; `onPress` goes under 'press' and `onRelease` under 'release', each alone; the same function given for both sits once under each id |
| `GameInput.Construct` | src/GameInput.ts:9-17 | the constructor leaves a valid emitter holding exactly those entries |
| `KeyInput.NewKeyInput` | src/KeyInput.ts:12-16 | a new key input has its code and is unpressed |
| `KeyInput.Value` | src/KeyInput.ts:22-24 | value is 1 iff pressed, else 0 |
| `KeyInput.InitialKeyboardState` | src/KeyInput.ts:27 | the table starts as 256 `false` entries, codes 0..255 |
| `KeyInput.TableStepSpec` | src/KeyInput.ts:34-53 | one event sets or clears only its own code; a repeat down or up changes nothing |
| `KeyInput.LastEventWins` | src/KeyInput.ts:34-53 | after a sequence of events, a code is down iff its latest event was a key-down |
| `KeyInput.UntouchedCode` | src/KeyInput.ts:34-53 | a code no event mentions keeps its entry |
| `KeyInput.KeyBoard.constructor` | src/KeyInput.ts:27-32 | initial table, no listener pair, document not hooked |
| `KeyInput.KeyBoard.OnKeyDown` | src/KeyInput.ts:34-43 | the table takes the down step whether or not a listener is installed; forwarded to keydown only on an up→down edge with a listener installed |
| `KeyInput.KeyBoard.OnKeyUp` | src/KeyInput.ts:45-53 | symmetric: only a down→up edge clears the entry and forwards to keyup |
| `KeyInput.KeyBoard.AddKeyListeners` | src/KeyInput.ts:59-68 | while listening, keeps the existing pair; otherwise stores both, hooks the document, and `listeningKeys()` holds |
| `KeyInput.KeyBoard.RemoveKeyListeners` | src/KeyInput.ts:73-82 | a no-op with no keydown stored; otherwise clears both and unhooks; ignores its argument; the table is untouched |
| `ElementInput.ElementInput.constructor` | src/ElementInput.ts:34-67 | unpressed, device NONE; the element gains the iOS preventers, then the five handlers |
| `ElementInput.PressSpec` | src/ElementInput.ts:69-85 | a press or release from a kind other than the non-NONE active one changes nothing; an accepted press takes the slot and sets pressed, even if already pressed; an accepted release clears pressed, starts a reset, and keeps the slot |
| `ElementInput.ElementInput.OnPressElement` | src/ElementInput.ts:69-74 | new state as `PressElement`; `onPress` runs iff the press is accepted and the callback is given |
| `ElementInput.ElementInput.OnReleaseElement` | src/ElementInput.ts:76-85 | new state as `ReleaseElement`; `onRelease` runs at once iff the release is accepted and the callback is given |
| `ElementInput.ElementInput.DeferredReset` | src/ElementInput.ts:79-83 | a pending timer fires: the slot becomes NONE, nothing else changes |
| `ElementInput.TouchThenMouse` | src/ElementInput.ts:76-85 | after a touch press and release, a mouse press is ignored until the reset fires, and accepted after |
| `ElementInput.OtherDeviceIgnored` | src/ElementInput.ts:69-77 | any sequence of events from the other device kind leaves the state unchanged |
| `ElementInput.ElementInput.HandleEvent` | src/ElementInput.ts:43-60 | touchmove only prevents default; the other four handlers forward to press/release with their device kind |
| `ElementInput.ElementInput.Value` | src/ElementInput.ts:91-93 | value is 1 iff pressed, else 0 |
| `ElementInput.SnuffIosEvents` | src/ElementInput.ts:115-120 | adds a `dblclick` preventer iff `isIOS` and `config.iOSHacks` |
| `ElementInput.ElementInput.RemoveListeners` | src/ElementInput.ts:96-100 | detaches exactly this input's five handlers, leaving the rest |
| `ElementInput.AttachDetach` | src/ElementInput.ts:62-66 | attach then detach leaves the element's other listeners, including the iOS preventer |
| `GpadInput.Clamp` | src/GpadInput.ts:4-6 | with lo ≤ hi the result lies in [lo, hi], and equals `n` when `n` is in range |
| `GpadInput.Create` | src/GpadInput.ts:20-23 | the axis variant iff the tag is 'axis', else the button variant, copying the fields |
| `GpadInput.ValueSpec` | src/GpadInput.ts:42-45 | 0 when no connected pad has the id; button → `clamp(buttons[b], 0, 1)`, axis → `clamp(axes[a] * sign, 0, 1)`; a numeric value lies in [0, 1]; a missing button throws; a missing axis gives NaN |
| `GpadInput.Pressed` | src/GpadInput.ts:16-18 | pressed iff the value is a number strictly above 0.75 |
| `GpadInput.PressedThreshold` | src/GpadInput.ts:16-18 | an absent pad is never pressed; 0.75 exactly is not pressed |
| `GpadInput.OppositeAxes` | src/GpadInput.ts:67-70 | opposite-sign inputs on one axis are never both positive; at ±1 the matching sign reads 1 and the other 0 |
| `Gpad.Connected` | src/gpad.ts:26 | the nulls are removed and every connected pad is kept |
| `Gpad.ConnectedAppend` | src/gpad.ts:26 | the filter preserves order (it distributes over concatenation) |
| `Gpad.GamepadService.SearchGamepads` | src/gpad.ts:23-38 | copies the raw list and its null-free filter; when unsupported both are empty and the warning is logged at most once |
| `Gpad.GamepadService.GetGamepads` | src/gpad.ts:41-50 | while throttled, returns the cached list without searching; otherwise one search and the flag is set |
| `Gpad.GamepadService.GetConnectedGamepads` | src/gpad.ts:55-64 | the same throttling for the connected list |
| `Gpad.GamepadService.ThrottleReset` | src/gpad.ts:48 | the deferred reset clears the flag; at most one search happens between resets |
| `Gpad.FindById` | src/gpad.ts:67-69 | finds a connected pad with that id iff one exists |
| `Gpad.FindByIdFirst` | src/gpad.ts:67-69 | the pad found is the first with that id |
| `Gpad.GamepadService.GetGamepadById` | src/gpad.ts:67-69 | returns the first connected pad with that id, or none |
| `Gpad.GamepadService.GetGamepadByIndex` | src/gpad.ts:72-75 | returns the raw entry, or none for a hole or an out-of-range index |
| `Gpad.GamepadService.GetFirstGamepad` | src/gpad.ts:78-80 | returns the first connected pad, or none |
| `Gpad.GamepadService.OnGamepadConnectChange` | src/gpad.ts:82-87 | searches, then calls every listener in order with the connected list |
| `Gpad.GamepadService.On` | src/gpad.ts:90-102 | false and no change for a registered fn; otherwise appended and true; hooks attached iff the list is non-empty |
| `Gpad.GamepadService.Off` | src/gpad.ts:105-117 | false for an absent fn; otherwise spliced out and true; hooks detached when the list empties |
| `Gpad.GamepadService.Listen` | src/gpad.ts:123-135 | no argument or the current state: no change, returns the state; otherwise toggles the internal listener and returns `enable` |
| `GroupState.DevicePressSpec` | src/index.ts:94-100 | already pressed: nothing changes, nobody is called; otherwise sets the bit and calls each press listener once, in order; a second press is silent |
| `GroupState.DeviceReleaseSpec` | src/index.ts:107-120 | a no-op when unpressed or while a member key, element or gamepad control holds the group; only otherwise clears the bit and calls each release listener once |
| `GroupState.CtrlsPressedSpec` | src/index.ts:82-84 | `some` is true iff a control is pressed and those before it are not; false iff none is |
| `GroupState.ValueRange` | src/index.ts:59-71 | 1 while a key or element is pressed; otherwise the largest control value, 0 with none; always in [0, 1] when numeric |
| `GroupState.MaxValue` | src/index.ts:66-70 | the running `Math.max` bounds every control value and equals one of them or the start |
| `GroupState.PollKeepsHeld` | src/index.ts:155-165 | a group held only by a key or element stays pressed across a poll turn |
| `GroupState.PollStable` | src/index.ts:155-165 | a second poll turn on the same inputs changes nothing and calls nobody |
| `GroupState.FireScenario` | src/index.ts:155-165 | one button at 0.9 presses the group with one press call; at 0.2 it releases with one release call |
| `GroupState.JumpKeyScenario` | src/index.ts:126-130 | on the group's view alone: a press fan-out presses the group with one call carrying the window name; a repeat calls nothing |
| `GroupState.SharedKeyScenario` | src/index.ts:126-130 | on the groups' views: one press fan-out over two groups bound to key 65 presses both, each calling its own listener |
| `GroupState.PressAllSpec` | src/index.ts:126-130 | a key-down fan-out presses every group reached and calls exactly the listeners of those not yet pressed |
| `GroupState.RunAllDone` | src/index.ts:155-165 | a fan-out has no error iff no turn throws, and then each group has its own turn's result |
| `GroupState.RunAllStopped` | src/index.ts:155-165 | a throwing turn stops the loop; groups after it are untouched |
| `GroupState.ListenSpec` | src/index.ts:272-276 | `on` changes only that type's list: a duplicate is ignored, otherwise the callback is appended; `off` after a fresh `on` restores the group |
| `GroupState.UnlistenSpec` | src/index.ts:289-296 | `off` changes only that type's list, and shortens it by one iff the callback was there |
| `GroupState.RemoveLast` | src/index.ts:290-295 | only the last matching entry is removed; the others keep their order |
| `GroupState.OtherDeviceReachesNobody` | src/ElementInput.ts:69-77 | while touch owns an element, mouse events reach no group listener |
| `GroupState.ElementReleaseHeldByKey` | src/index.ts:107-114 | releasing an element does not release a group that a key still holds |
| `GroupState.TouchPressesGroup` | src/index.ts:94-100 | the first touch on an element of an unpressed group presses it and calls each press listener once |
| `Index.GameInputGroup.constructor` | src/index.ts:36-57 | a new group is unpressed, with empty press/release lists, one key input per code, one control per descriptor, and one element input per element |
| `Index.GameInputGroup.OnDevicePress` | src/index.ts:94-100 | the new state and calls are those of `DevicePress` |
| `Index.GameInputGroup.OnDeviceRelease` | src/index.ts:107-120 | the new state and calls are those of `DeviceRelease`; a throwing control read leaves the group unchanged |
| `Index.GameInputGroup.NotifyAll` | src/index.ts:97-99 | the listener loop calls each listener once, in order, with the group's name |
| `Index.GameInputGroup.PollTurn` | src/index.ts:158-163 | one poll turn is press when a control is pressed, else release |
| `Index.GameInputGroup.ElementEvent` | src/index.ts:46-52 | an element event updates the element and, when accepted, runs the group's press or release step |
| `Index.GameInputGroup.RemoveListenerFrom` | src/index.ts:289-296 | the backwards loop removes the last matching entry and reports whether one existed |
| `Index.KeysOfCodes` | src/index.ts:40-42 | the key inputs built from the codes carry exactly those codes |
| `Registry.KeyedNamesSpec` | src/index.ts:139-152 | a name is collected iff its group has a key of that code, each at most once |
| `Registry.Registry.GetInputsByKeyCode` | src/index.ts:139-152 | returns exactly the registered groups with a key of that code, each once |
| `Registry.Registry.OnKeyDown` | src/index.ts:126-130 | every group with that code is pressed, and only those not yet pressed call their listeners; other groups are unchanged |
| `Registry.Registry.OnKeyUp` | src/index.ts:132-136 | every group with that code gets its release turn, in order, until one throws; other groups are unchanged |
| `Registry.Registry.DocumentKeyDown` | src/KeyInput.ts:34-43 | with the hooks installed, an up→down edge updates the table and reaches every group with that code; a repeat changes nothing |
| `Registry.Registry.DocumentKeyUp` | src/KeyInput.ts:45-53 | with the hooks installed, only a down→up edge updates the table and reaches the groups with that code |
| `Registry.Registry.Poll` | src/index.ts:155-165 | every group gets one poll turn, in name order, until one throws |
| `Registry.Registry.Create` | src/index.ts:172-189 | throws on an invalid name and touches no page element; otherwise any old group under the name is destroyed and exactly one fresh, unpressed group with empty listener lists is stored last under it; each page element of the old or new group loses the old group's handlers and gains the new group's; it may change no other page element; keeps the key-listener invariant |
| `Registry.Registry.Destroy` | src/index.ts:194-218 | throws on an invalid name, returns false for an unknown one; otherwise removes the group, and each of its page elements loses exactly that group's handlers; it may change no other page element; returns true iff it also uninstalled the key listeners, else `undefined`; keeps the key-listener invariant |
| `Registry.Registry.ReleaseKeys` | src/index.ts:207-217 | the key listeners come off iff they are installed and no remaining group has keys |
| `Registry.Registry.Pressed` | src/index.ts:223-226 | false for an unknown name, else the group's pressed bit |
| `Registry.Registry.Value` | src/index.ts:231-234 | 0 for an unknown name; otherwise the group's value: in [0, 1], and 1 while a key or element holds it |
| `Registry.Registry.GetPressed` | src/index.ts:239-244 | overwrites every key of the object in place with `pressed(key)` and returns the object |
| `Registry.Registry.GetValues` | src/index.ts:249-254 | overwrites the keys in order with `value(key)`, stopping at a throwing read, and returns the object |
| `Registry.FillNormal` | src/index.ts:250-252 | with no throwing read, every key gets its value and no other entry changes |
| `Registry.FillThrown` | src/index.ts:250-252 | a throwing read stops the loop at the first such read |
| `Registry.Registry.On` | src/index.ts:259-277 | throws on a bad name, a bad type, or an unknown group, in that order; otherwise adds the callback to that list unless present |
| `Registry.Registry.Off` | src/index.ts:282-298 | for a `'press'` or `'release'` type: an unknown group throws (after the warning); otherwise removes the last matching entry of that type and reports whether there was one |
| `Registry.JumpCreate` | src/index.ts:172-189 | `create({name: 'jump', keyCodes: [32]})` on a fresh registry stores one unpressed group with no listeners and installs the key listeners |
| `Registry.JumpListenPress` | src/index.ts:259-277 | `on('jump', 'press', 1)` gives the group the press list `[1]` and changes nothing else |
| `Registry.JumpListenRelease` | src/index.ts:259-277 | `on('jump', 'release', 2)` then gives it the release list `[2]` |
| `Registry.JumpPress` | src/KeyInput.ts:34-43 | the first key-down of 32 presses "jump" and calls listener 1 once, with the window name; `pressed('jump')` is then true |
| `Registry.JumpRepeat` | src/KeyInput.ts:34-43 | a repeated key-down of 32 calls nothing and leaves "jump" pressed |
| `Registry.JumpRelease` | src/KeyInput.ts:45-53 | the key-up of 32 releases "jump" and calls listener 2 once, with the window name; `pressed('jump')` is then false |
| `Registry.JumpEndToEnd` | src/index.ts:126-136 | the whole run through `create`, `on`, the document key handlers and `pressed`: one press call `[Call(1, "win")]`, then none on a repeat, then one release call `[Call(2, "win")]`, with `pressed` true then false |

## Left out

- DOM and browser calls are abstract. `addEventListener`/`removeEventListener`
  on elements become multisets of attached listeners; on `document`/`window`
  they become booleans. `navigator.getGamepads()` is a parameter, and
  `navigator.userAgent` matching is the `isIOS` flag. `preventDefault` is a
  returned flag.
- `setTimeout(…, 500)` and `Promise.resolve().then` are explicit environment
  steps (`DeferredReset`, `ThrottleReset`). Real time and the microtask queue
  are not modelled.
- `console.log`/`console.warn` are modelled only as "no state change" paths.
  The one exception is the "Gamepad unsupported" count.
- User callbacks are opaque identities; their side effects are not modelled.
  The one exception is the self-removal of `once` wrappers.
- Gamepad values are `real`; floating-point rounding is not modelled.
- `GpadInput.Value` takes the connected-gamepad list as a parameter. It does
  not call the throttled getter of `Gpad.GamepadService`. The throttle is
  proved on its own, and the two are not composed.
- Group-level gamepad reads (`GroupState.ValueRange`,
  `Registry.Registry.Value`) state the [0, 1] bound only when every control
  reads a number. A missing axis index gives NaN, and a missing button index
  throws.
- `Object.keys` order is modelled as insertion order. JavaScript lists
  integer-like keys first in ascending order; that is not modelled.
- A group's inherited `GameInput` emitter and a `KeyInput`'s own emitter are
  not modelled. Neither is wired with callbacks in src/index.ts, and groups
  and element inputs use their own listener records.
- Registry.Registry.Off: takes the event type as the declared
  `'press' | 'release'`. A JavaScript caller may pass any other string. That
  string then names a property of the group's `listeners` object, which
  inherits `Object.prototype`. So 'toString' and '__proto__' warn and
  return, 'constructor' throws reading `callback`, and an unknown string
  throws reading `length`. These paths are not modelled.
- `KeyInput` instances' `isPressed` is never written after construction, so
  the model stores it and no operation changes it.

## Findings

| source | as written | input that shows it | evidently intended | confidence | as-written member | corrected member |
|---|---|---|---|---|---|---|
| src/InputEmitter.ts:59 | `emit` iterates the live stored array. A `once` wrapper's `off` splices that array during the loop. | Under one id, `once(f)` then `on(g)`, then `emit`: the wrapper removes itself at index 0, `g` moves to index 0, and the iterator stops, so `g` is never called. | every callback present when `emit` starts is called once, in order | high, by proof; not executed | `InputEmitter.LiveEmitSkipsAfterOnce` | `InputEmitter.Emitter.Emit` |
