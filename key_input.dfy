/** Keyboard input (src/KeyInput.ts): the per-code `KeyInput` value and the
    class-wide state shared by all of them, namely the key table
    `keyboardState` and the one installed keydown/keyup listener pair. */
module KeyInput {
  import opened Common

  /** A `KeyInput`: its code and its `isPressed` field, which no code path
      writes after construction. */
  datatype KeyInput = KeyInput(code: int, isPressed: bool)

  /** `new KeyInput(code)`. */
  function NewKeyInput(code: int): (k: KeyInput)
    ensures k.code == code && !Pressed(k)
  {
    KeyInput(code, false)
  }

  function Pressed(k: KeyInput): bool
  {
    k.isPressed
  }

  /** `value()`: 1 for a pressed key, otherwise 0. */
  function Value(k: KeyInput): (v: real)
    ensures v == 1.0 <==> Pressed(k)
    ensures v == 0.0 <==> !Pressed(k)
  {
    if Pressed(k) then 1.0 else 0.0
  }

  /** `keyboardState` is a JavaScript array: it starts with 256 `false`
      entries; writing a code outside 0..255 adds an entry, and reading a
      missing entry gives `undefined`, which reads as false. */
  type KeyTable = map<int, bool>

  /** `new Array<boolean>(n).fill(false)`. */
  function Filled(n: nat): (t: KeyTable)
    ensures forall c :: c in t <==> 0 <= c < n
    ensures forall c :: c in t ==> !t[c]
  {
    if n == 0 then map[] else Filled(n - 1)[n - 1 := false]
  }

  function InitialKeyboardState(): (t: KeyTable)
    ensures forall c :: c in t <==> 0 <= c < 256
    ensures forall c :: c in t ==> !t[c]
  {
    Filled(256)
  }

  predicate IsDown(t: KeyTable, code: int)
  {
    code in t && t[code]
  }

  /** A raw keyboard event reaching `KeyInput.onKeyDown` / `onKeyUp`. */
  datatype KeyEvent = Down(code: int) | Up(code: int)

  /** Whether the event changes the table, which is also whether it is
      forwarded to the installed listener. */
  predicate IsEdge(t: KeyTable, e: KeyEvent)
  {
    match e
    case Down(c) => !IsDown(t, c)
    case Up(c) => IsDown(t, c)
  }

  /** The table after one event. */
  function TableStep(t: KeyTable, e: KeyEvent): KeyTable
  {
    if !IsEdge(t, e) then t
    else match e
      case Down(c) => t[c := true]
      case Up(c) => t[c := false]
  }

  /** The table after a sequence of events, oldest first. */
  function TableAfter(t: KeyTable, es: seq<KeyEvent>): KeyTable
    decreases |es|
  {
    if es == [] then t else TableAfter(TableStep(t, es[0]), es[1..])
  }

  /** One event sets or clears exactly its own code and leaves every other
      code as it was; a repeat down (or up) changes nothing. */
  lemma TableStepSpec(t: KeyTable, e: KeyEvent, other: int)
    ensures IsDown(TableStep(t, e), e.code) <==> e.Down?
    ensures other != e.code ==> (IsDown(TableStep(t, e), other) <==> IsDown(t, other))
    ensures !IsEdge(t, e) ==> TableStep(t, e) == t
  {
  }

  /** The last event on a code decides its entry: after the events, the
      key is down exactly when the latest event for its code was a
      key-down. */
  lemma {:induction false} LastEventWins(t: KeyTable, es: seq<KeyEvent>, k: nat)
    requires k < |es| && forall j :: k < j < |es| ==> es[j].code != es[k].code
    ensures IsDown(TableAfter(t, es), es[k].code) <==> es[k].Down?
    decreases |es|
  {
    var c := es[k].code;
    var rest := es[1..];
    assert TableAfter(t, es) == TableAfter(TableStep(t, es[0]), rest);
    if k == 0 {
      forall i | 0 <= i < |rest| ensures rest[i].code != c {
        assert rest[i] == es[i + 1];
      }
      TableStepSpec(t, es[0], c);
      UntouchedCode(TableStep(t, es[0]), rest, c);
    } else {
      forall j | k - 1 < j < |rest| ensures rest[j].code != rest[k - 1].code {
        assert rest[j] == es[j + 1];
      }
      LastEventWins(TableStep(t, es[0]), rest, k - 1);
    }
  }

  /** A code that no event mentions keeps its entry. */
  lemma {:induction false} UntouchedCode(t: KeyTable, es: seq<KeyEvent>, c: int)
    requires forall i :: 0 <= i < |es| ==> es[i].code != c
    ensures IsDown(TableAfter(t, es), c) <==> IsDown(t, c)
    decreases |es|
  {
    if es != [] {
      var rest := es[1..];
      forall i | 0 <= i < |rest| ensures rest[i].code != c {
        assert rest[i] == es[i + 1];
      }
      TableStepSpec(t, es[0], c);
      UntouchedCode(TableStep(t, es[0]), rest, c);
    }
  }

  /** The identities of a keydown/keyup listener pair. */
  datatype KeyListeners = KeyListeners(keydown: nat, keyup: nat)

  /** The static state of `KeyInput`. `documentHooks` stands for the two
      capture listeners `KeyInput.onKeyDown` / `onKeyUp` on `document`. */
  class KeyBoard {
    var keyboardState: KeyTable
    var keydown: Option<nat>
    var keyup: Option<nat>
    var documentHooks: bool

    ghost predicate Valid()
      reads this
    {
      (keydown.Some? <==> keyup.Some?) && (documentHooks <==> keydown.Some?)
    }

    constructor ()
      ensures Valid()
      ensures keyboardState == InitialKeyboardState()
      ensures keydown == None && keyup == None && !documentHooks
    {
      keyboardState := InitialKeyboardState();
      keydown, keyup := None, None;
      documentHooks := false;
    }

    /** `listeningKeys()`. */
    predicate ListeningKeys()
      reads this
    {
      keydown.Some? || keyup.Some?
    }

    /** `onKeyDown(e)`: on an up code sets the entry and forwards the event
        to the installed keydown listener, if any; a repeat does nothing. */
    method OnKeyDown(code: int) returns (forwarded: Option<nat>)
      requires Valid()
      modifies this
      ensures Valid()
      ensures keydown == old(keydown) && keyup == old(keyup) && documentHooks == old(documentHooks)
      ensures keyboardState == TableStep(old(keyboardState), Down(code))
      ensures forwarded == if IsEdge(old(keyboardState), Down(code)) then old(keydown) else None
    {
      forwarded := None;
      if !IsDown(keyboardState, code) {
        keyboardState := keyboardState[code := true];
        if keydown.Some? {
          forwarded := keydown;
        }
      }
    }

    /** `onKeyUp(e)`: only a down-to-up transition clears the entry and is
        forwarded to the installed keyup listener. */
    method OnKeyUp(code: int) returns (forwarded: Option<nat>)
      requires Valid()
      modifies this
      ensures Valid()
      ensures keydown == old(keydown) && keyup == old(keyup) && documentHooks == old(documentHooks)
      ensures keyboardState == TableStep(old(keyboardState), Up(code))
      ensures forwarded == if IsEdge(old(keyboardState), Up(code)) then old(keyup) else None
    {
      forwarded := None;
      if IsDown(keyboardState, code) {
        keyboardState := keyboardState[code := false];
        if keyup.Some? {
          forwarded := keyup;
        }
      }
    }

    /** `addKeyListeners(l)`: while a pair is installed it only warns;
        otherwise it stores both listeners and hooks the document. */
    method AddKeyListeners(l: KeyListeners)
      requires Valid()
      modifies this
      ensures Valid() && keyboardState == old(keyboardState)
      ensures old(ListeningKeys()) ==>
        keydown == old(keydown) && keyup == old(keyup) && documentHooks == old(documentHooks)
      ensures !old(ListeningKeys()) ==>
        keydown == Some(l.keydown) && keyup == Some(l.keyup) && documentHooks && ListeningKeys()
    {
      if keydown.Some? || keyup.Some? {
        return;
      }
      keydown := Some(l.keydown);
      keyup := Some(l.keyup);
      documentHooks := true;
    }

    /** `removeKeyListeners(l)`: ignores its argument; when no keydown
        listener is stored it only warns; otherwise it unhooks the document
        and clears both listeners. The table is left as it is. */
    method RemoveKeyListeners(l: KeyListeners)
      requires Valid()
      modifies this
      ensures Valid() && keyboardState == old(keyboardState)
      ensures old(keydown).None? ==>
        keydown == old(keydown) && keyup == old(keyup) && documentHooks == old(documentHooks)
      ensures old(keydown).Some? ==>
        keydown == None && keyup == None && !documentHooks && !ListeningKeys()
    {
      if keydown.None? {
        return;
      }
      documentHooks := false;
      keyup := None;
      keydown := None;
    }
  }
}
