/** The module-level state of src/index.ts: the `inputs` dictionary of
    named groups, the global key listeners it installs through `KeyInput`,
    and the exported functions `create`, `destroy`, `on`, `off`, `poll`,
    `pressed`, `value`, `getPressed` and `getValues`. */
module Registry {
  import opened Common
  import KeyInput
  import opened Gpad
  import GI = GpadInput
  import opened ElementInput
  import opened GroupState
  import opened Index

  /** The registry's own `onKeyDown` / `onKeyUp`, as the listener pair it
      hands to `KeyInput.addKeyListeners`. */
  const OwnKeyListeners := KeyInput.KeyListeners(0, 1)

  /** The groups named by `ns`, in order. */
  function GroupsOf(inputs: map<string, GameInputGroup>, ns: seq<string>): (gs: seq<GameInputGroup>)
    requires forall n :: n in ns ==> n in inputs
    ensures |gs| == |ns|
    ensures forall i :: 0 <= i < |ns| ==> gs[i] == inputs[ns[i]]
  {
    if ns == [] then [] else [inputs[ns[0]]] + GroupsOf(inputs, ns[1..])
  }

  /** The views that `m` gives the names `ns`, in order. */
  function ViewsOf(m: map<string, GroupView>, ns: seq<string>): (vs: seq<GroupView>)
    requires forall n :: n in ns ==> n in m
    ensures |vs| == |ns| && forall j :: 0 <= j < |ns| ==> vs[j] == m[ns[j]]
  {
    seq(|ns|, j requires 0 <= j < |ns| => m[ns[j]])
  }

  /** The loop of `onKeyDown`, `onKeyUp` and `poll`: the action on each
      group of `gs` in turn, whose views were `vs`; a throw ends the loop.
      Only the groups of `gs` change. */
  method RunGroups(a: Action, gs: seq<GameInputGroup>, ghost vs: seq<GroupView>, t: KeyInput.KeyTable, pads: seq<Gamepad>)
    returns (calls: seq<Call>, error: Option<string>)
    requires NoDups(gs) && |vs| == |gs| && forall j :: 0 <= j < |gs| ==> gs[j].View() == vs[j]
    modifies gs
    ensures var r := RunAll(a, vs, t, pads);
      calls == r.calls && error == r.error && forall j :: 0 <= j < |gs| ==> gs[j].View() == r.views[j]
    ensures forall g: GameInputGroup :: old(allocated(g)) && g !in gs ==> g.View() == old(g.View())
  {
    ghost var cur := vs;
    calls, error := [], None;
    LoopStart(a, vs, t, pads);
    for i := 0 to |gs|
      invariant |cur| == |gs| && forall j :: 0 <= j < |gs| ==> gs[j].View() == cur[j]
      invariant LoopOk(a, vs, i, cur, calls, t, pads)
      invariant forall g: GameInputGroup :: old(allocated(g)) && g !in gs ==> g.View() == old(g.View())
    {
      var res, next := TurnStep(a, gs, i, vs, cur, calls, t, pads);
      if res.Thrown? {
        error := Some(res.message);
        return;
      }
      cur := next;
      calls := calls + res.value;
    }
    LoopEnd(a, vs, cur, calls, t, pads);
  }

  /** One pass of the loop of `RunGroups`: the `i`-th group's turn, and
      where it leaves the run. */
  method TurnStep(a: Action, gs: seq<GameInputGroup>, i: nat, ghost vs: seq<GroupView>, ghost cur: seq<GroupView>,
                  ghost calls: seq<Call>, t: KeyInput.KeyTable, pads: seq<Gamepad>)
    returns (res: Completion<seq<Call>>, ghost next: seq<GroupView>)
    requires NoDups(gs) && i < |gs| && |cur| == |gs| && forall j :: 0 <= j < |gs| ==> gs[j].View() == cur[j]
    requires LoopOk(a, vs, i, cur, calls, t, pads)
    modifies gs[i]
    ensures res.Thrown? ==>
      RunAll(a, vs, t, pads) == Run(cur, calls, Some(res.message)) && forall j :: 0 <= j < |gs| ==> gs[j].View() == cur[j]
    ensures res.Normal? ==>
      |next| == |gs| && (forall j :: 0 <= j < |gs| ==> gs[j].View() == next[j]) &&
      LoopOk(a, vs, i + 1, next, calls + res.value, t, pads)
    ensures forall g: GameInputGroup :: old(allocated(g)) && g != gs[i] ==> g.View() == old(g.View())
  {
    res := Turn(a, gs, i, cur, t, pads);
    if res.Thrown? {
      LoopThrown(a, vs, i, cur, calls, t, pads);
      next := cur;
    } else {
      LoopStep(a, vs, i, cur, calls, t, pads);
      next := cur[i := Apply(a, cur[i], t, pads).value.view];
    }
  }

  /** The `i`-th group's turn: only that group's view changes, as the
      action on it says. */
  method Turn(a: Action, gs: seq<GameInputGroup>, i: nat, ghost cur: seq<GroupView>, t: KeyInput.KeyTable, pads: seq<Gamepad>)
    returns (res: Completion<seq<Call>>)
    requires NoDups(gs) && i < |gs| && |cur| == |gs| && forall j :: 0 <= j < |gs| ==> gs[j].View() == cur[j]
    modifies gs[i]
    ensures var st := Apply(a, cur[i], t, pads);
      if st.Thrown? then res == Thrown(st.message) && forall j :: 0 <= j < |gs| ==> gs[j].View() == cur[j]
      else res == Normal(st.value.calls) && forall j :: 0 <= j < |gs| ==> gs[j].View() == cur[i := st.value.view][j]
    ensures forall g: GameInputGroup :: old(allocated(g)) && g != gs[i] ==> g.View() == old(g.View())
  {
    res := gs[i].Act(a, t, pads);
    forall j | 0 <= j < |gs| && j != i ensures gs[j].View() == old(gs[j].View()) {
      assert gs[j] != gs[i];
    }
  }

  /** The loop of `RunGroups` after `i` turns without a throw: the groups
      before `i` have had their turn, the others are as they were, and the
      rest of the run is the run over the groups not yet reached. */
  ghost predicate LoopOk(a: Action, vs: seq<GroupView>, i: nat, cur: seq<GroupView>, calls: seq<Call>, t: KeyInput.KeyTable, pads: seq<Gamepad>)
  {
    i <= |vs| && |cur| == |vs| && cur[i..] == vs[i..] &&
    RunAll(a, vs, t, pads) == Prepend(cur[..i], calls, RunAll(a, vs[i..], t, pads))
  }

  lemma LoopStart(a: Action, vs: seq<GroupView>, t: KeyInput.KeyTable, pads: seq<Gamepad>)
    ensures LoopOk(a, vs, 0, vs, [], t, pads)
  {
    assert vs[0..] == vs;
  }

  lemma LoopStep(a: Action, vs: seq<GroupView>, i: nat, cur: seq<GroupView>, calls: seq<Call>, t: KeyInput.KeyTable, pads: seq<Gamepad>)
    requires i < |vs| && LoopOk(a, vs, i, cur, calls, t, pads) && Apply(a, cur[i], t, pads).Normal?
    ensures var st := Apply(a, cur[i], t, pads).value;
      LoopOk(a, vs, i + 1, cur[i := st.view], calls + st.calls, t, pads)
  {
    var st := Apply(a, cur[i], t, pads).value;
    var cur1 := cur[i := st.view];
    assert cur[i] == cur[i..][0] == vs[i];
    TurnTaken(a, vs, i, cur[..i], calls, t, pads);
    assert cur1[..i + 1] == cur[..i] + [st.view];
    assert cur1[i + 1..] == cur[i + 1..] == cur[i..][1..];
  }

  lemma LoopThrown(a: Action, vs: seq<GroupView>, i: nat, cur: seq<GroupView>, calls: seq<Call>, t: KeyInput.KeyTable, pads: seq<Gamepad>)
    requires i < |vs| && LoopOk(a, vs, i, cur, calls, t, pads) && Apply(a, cur[i], t, pads).Thrown?
    ensures RunAll(a, vs, t, pads) == Run(cur, calls, Some(Apply(a, cur[i], t, pads).message))
  {
    assert cur[i] == cur[i..][0] == vs[i];
    TurnThrown(a, vs, i, t, pads);
    assert cur[..i] + cur[i..] == cur;
  }

  lemma LoopEnd(a: Action, vs: seq<GroupView>, cur: seq<GroupView>, calls: seq<Call>, t: KeyInput.KeyTable, pads: seq<Gamepad>)
    requires LoopOk(a, vs, |vs|, cur, calls, t, pads)
    ensures RunAll(a, vs, t, pads) == Run(cur, calls, None)
  {
    assert cur[..|vs|] == cur;
    assert vs[|vs|..] == [];
  }

  /** The names, in order, of the groups whose key list holds `code`: what
      `getInputsByKeyCode` collects. */
  function KeyedNames(names: seq<string>, inputs: map<string, GameInputGroup>, code: int): (r: seq<string>)
    requires forall n :: n in names ==> n in inputs
    ensures |r| <= |names|
    ensures forall i :: 0 <= i < |r| ==> r[i] in names
    decreases |names|
  {
    if names == [] then []
    else
      var rest := KeyedNames(names[1..], inputs, code);
      if code in KeyCodes(inputs[names[0]].keys) then
        var r := [names[0]] + rest;
        assert forall i :: 1 <= i < |r| ==> r[i] == rest[i - 1];
        r
      else rest
  }

  /** A name is collected exactly when its group has the code, and a list
      without repeats yields one without repeats. */
  lemma {:induction false} KeyedNamesSpec(names: seq<string>, inputs: map<string, GameInputGroup>, code: int)
    requires forall n :: n in names ==> n in inputs
    ensures forall n :: n in KeyedNames(names, inputs, code) <==> n in names && code in KeyCodes(inputs[n].keys)
    ensures NoDups(names) ==> NoDups(KeyedNames(names, inputs, code))
    decreases |names|
  {
    if names != [] {
      var rest := KeyedNames(names[1..], inputs, code);
      KeyedNamesSpec(names[1..], inputs, code);
      assert forall n :: n in names ==> n == names[0] || n in names[1..];
      if NoDups(names) {
        assert NoDups(names[1..]) by {
          forall a, b | 0 <= a < b < |names[1..]| ensures names[1..][a] != names[1..][b] {
            assert names[1..][a] == names[a + 1] && names[1..][b] == names[b + 1];
          }
        }
        assert names[0] !in names[1..] by {
          forall j | 0 <= j < |names[1..]| ensures names[1..][j] != names[0] {
            assert names[1..][j] == names[j + 1];
          }
        }
      }
      if code in KeyCodes(inputs[names[0]].keys) {
        var r := [names[0]] + rest;
        assert forall j :: 1 <= j < |r| ==> r[j] == rest[j - 1];
      }
    }
  }

  /** The plain object handed to `getPressed` / `getValues`: its own keys
      in order (`Object.keys(obj)`) and its entries. */
  class Record<V> {
    var keys: seq<string>
    var entries: map<string, V>

    ghost predicate Valid()
      reads this
    {
      NoDups(keys) && forall k :: k in keys <==> k in entries
    }

    constructor (keys: seq<string>, entries: map<string, V>)
      ensures this.keys == keys && this.entries == entries
    {
      this.keys := keys;
      this.entries := entries;
    }
  }

  /** What the loop of `getValues` leaves behind: the entries, and the
      message of the read that threw, if one did. */
  datatype Filled = Filled(entries: map<string, GI.Number>, error: Option<string>)

  /** The loop of `getValues` over the keys `ks` from the entries `m`,
      where `rs[j]` is how the read for `ks[j]` completes: each key gets the
      value read for it, until a read throws. */
  function Fill(m: map<string, GI.Number>, ks: seq<string>, rs: seq<Completion<GI.Number>>): Filled
    requires |rs| == |ks|
    decreases |ks|
  {
    if ks == [] then Filled(m, None)
    else
      match rs[0]
      case Thrown(e) => Filled(m, Some(e))
      case Normal(v) => Fill(m[ks[0] := v], ks[1..], rs[1..])
  }

  /** With no throwing read, the loop gives every visited key the value read
      for it, adds no key it does not visit and leaves every other entry
      alone. */
  lemma {:induction false} FillNormal(m: map<string, GI.Number>, ks: seq<string>, rs: seq<Completion<GI.Number>>)
    requires |rs| == |ks| && NoDups(ks) && forall j :: 0 <= j < |ks| ==> rs[j].Normal?
    ensures Fill(m, ks, rs).error.None?
    ensures Fill(m, ks, rs).entries.Keys == m.Keys + (set k | k in ks)
    ensures forall j :: 0 <= j < |ks| ==> Fill(m, ks, rs).entries[ks[j]] == rs[j].value
    ensures forall k :: k in m && k !in ks ==> Fill(m, ks, rs).entries[k] == m[k]
    decreases |ks|
  {
    if ks != [] {
      var rest := ks[1..];
      assert forall j :: 0 <= j < |rest| ==> rest[j] == ks[j + 1] && rs[1..][j] == rs[j + 1];
      FillNormal(m[ks[0] := rs[0].value], rest, rs[1..]);
      assert (set k | k in ks) == {ks[0]} + (set k | k in rest);
    }
  }

  /** The loop over `ks` from `m` ends at position `t`: the read there throws
      and gives the message, none before it throws, and the entries are
      those the loop writes over the keys before it. */
  ghost predicate StopsAt(m: map<string, GI.Number>, ks: seq<string>, rs: seq<Completion<GI.Number>>, t: nat)
    requires |rs| == |ks| && t < |ks|
  {
    var f := Fill(m, ks, rs);
    rs[t].Thrown? && f.error == Some(rs[t].message) &&
    (forall i :: 0 <= i < t ==> rs[i].Normal?) &&
    f.entries == Fill(m, ks[..t], rs[..t]).entries
  }

  /** A throwing read ends the loop, at the first such read. */
  lemma {:induction false} FillThrown(m: map<string, GI.Number>, ks: seq<string>, rs: seq<Completion<GI.Number>>, j: nat)
    requires |rs| == |ks| && j < |ks| && rs[j].Thrown?
    ensures Fill(m, ks, rs).error.Some?
    ensures exists t :: 0 <= t <= j && StopsAt(m, ks, rs, t)
    decreases |ks|
  {
    assert ks[..0] == [] && rs[..0] == [];
    match rs[0]
    case Thrown(e) =>
      assert StopsAt(m, ks, rs, 0);
    case Normal(v) =>
      var rest, rrest := ks[1..], rs[1..];
      assert rrest[j - 1] == rs[j];
      FillThrown(m[ks[0] := v], rest, rrest, j - 1);
      var t :| 0 <= t <= j - 1 && StopsAt(m[ks[0] := v], rest, rrest, t);
      assert ks[..t + 1][1..] == rest[..t] && ks[..t + 1][0] == ks[0];
      assert rs[..t + 1][1..] == rrest[..t] && rs[..t + 1][0] == rs[0];
      assert forall i :: 0 < i < t + 1 ==> rs[i] == rrest[i - 1];
      assert StopsAt(m, ks, rs, t + 1);
  }

  class Registry {
    /** `Object.keys(inputs)`: the group names in insertion order. */
    var names: seq<string>
    var inputs: map<string, GameInputGroup>
    /** The static state of `KeyInput`. */
    const kb: KeyInput.KeyBoard
    /** The global `name` every group copies. */
    const windowName: string
    const isIOS: bool
    const iOSHacks: bool

    /** The invariant: the group table is well formed, and the key
        listeners are installed exactly while some group has keys. */
    ghost predicate Valid()
      reads this, kb
    {
      Inner() && (kb.ListeningKeys() <==> HasKeyed())
    }

    /** Some registered group has a non-empty key list. */
    ghost predicate HasKeyed()
      reads this
    {
      exists n :: n in inputs && inputs[n].keys != []
    }

    /** The invariant without its key-listener part. */
    ghost predicate Inner()
      reads this, kb
    {
      kb.Valid() &&
      ReprOk() &&
      NoDups(names) &&
      (forall n :: n in names <==> n in inputs) &&
      "" !in inputs &&
      Keyed() &&
      (forall n :: n in inputs ==> inputs[n].Valid() && inputs[n].name == windowName) &&
      (kb.keydown.Some? ==> kb.keydown == Some(OwnKeyListeners.keydown) && kb.keyup == Some(OwnKeyListeners.keyup))
    }

    /** Every group knows the name it is stored under. */
    ghost predicate Keyed()
      reads this
    {
      forall n :: n in inputs ==> inputs[n].key == n
    }

    /** The group objects and their element inputs. */
    ghost var Repr: set<object>

    ghost predicate ReprOk()
      reads this
    {
      this !in Repr && kb !in Repr && (forall d: DomElement :: d !in Repr) &&
      forall n :: n in inputs ==> inputs[n] in Repr && forall e :: e in inputs[n].elements ==> e in Repr
    }

    /** The page elements the groups' element inputs listen on. */
    ghost function Doms(): set<DomElement>
      reads this
    {
      set n, e | n in inputs && e in inputs[n].elements :: e.element
    }

    /** What every group's behaviour depends on, by name. */
    ghost function Views(): (v: map<string, GroupView>)
      requires ReprOk()
      reads this, Repr
      ensures v.Keys == inputs.Keys
      ensures forall n :: n in inputs ==> v[n] == inputs[n].View()
    {
      map n | n in inputs :: inputs[n].View()
    }

    /** The module's initial state: no groups, no key listeners. */
    constructor (windowName: string, isIOS: bool, iOSHacks: bool)
      ensures Valid() && fresh(kb)
      ensures names == [] && inputs == map[]
      ensures kb.keyboardState == KeyInput.InitialKeyboardState() && !kb.ListeningKeys()
      ensures this.windowName == windowName && this.isIOS == isIOS && this.iOSHacks == iOSHacks
    {
      names := [];
      inputs := map[];
      Repr := {};
      var k := new KeyInput.KeyBoard();
      kb := k;
      this.windowName := windowName;
      this.isIOS := isIOS;
      this.iOSHacks := iOSHacks;
    }

    /** `pressed(name)`: false for a name with no group. */
    function Pressed(name: string): (p: bool)
      reads this, inputs.Values
      ensures p <==> name in inputs && inputs[name].isPressed
    {
      if name in inputs then inputs[name].isPressed else false
    }

    /** `value(name)`: 0 for a name with no group; otherwise the group's
        value, a number in [0, 1] unless a control reads NaN, and 1 while one
        of its keys or elements is pressed. */
    function Value(name: string, pads: seq<Gamepad>): (r: Completion<GI.Number>)
      requires ReprOk()
      reads this, kb, Repr
      ensures name !in inputs ==> r == Normal(GI.Num(0.0))
      ensures r.Normal? && r.value.Num? ==> 0.0 <= r.value.v <= 1.0
      ensures name in inputs && (KeyPressed(inputs[name].View(), kb.keyboardState) || ElementPressed(inputs[name].View())) ==>
        r == Normal(GI.Num(1.0))
      ensures name in inputs && (forall i :: 0 <= i < |inputs[name].gpCtrls| ==> GI.Readable(inputs[name].gpCtrls[i], pads)) ==>
        r.Normal? && r.value.Num?
    {
      if name in inputs then
        ValueRange(inputs[name].View(), kb.keyboardState, pads);
        GroupState.Value(inputs[name].View(), kb.keyboardState, pads)
      else Normal(GI.Num(0.0))
    }

    /** `getInputsByKeyCode(code)`: the groups, in name order, that have a
        key of that code; each once, since the names are distinct. */
    function GetInputsByKeyCode(code: int): (r: seq<GameInputGroup>)
      requires forall n :: n in names ==> n in inputs
      reads this
      ensures forall n :: n in names && code in KeyCodes(inputs[n].keys) ==> inputs[n] in r
      ensures forall g :: g in r ==> code in KeyCodes(g.keys) && exists n :: n in names && inputs[n] == g
      ensures Keyed() && NoDups(names) ==> NoDups(r)
    {
      var ks := KeyedNames(names, inputs, code);
      KeyedNamesSpec(names, inputs, code);
      var r := GroupsOf(inputs, ks);
      assert forall n :: n in ks ==> inputs[n] in r by {
        forall n | n in ks ensures inputs[n] in r {
          var j :| 0 <= j < |ks| && ks[j] == n;
          assert r[j] == inputs[n];
        }
      }
      assert Keyed() && NoDups(names) ==> NoDups(r) by {
        if Keyed() && NoDups(names) {
          forall a, b | 0 <= a < b < |r| ensures r[a] != r[b] {
            assert r[a].key == ks[a] && r[b].key == ks[b];
          }
        }
      }
      r
    }

    /** Groups under distinct names are distinct objects. */
    lemma GroupsDistinct(ns: seq<string>, gs: seq<GameInputGroup>)
      requires Keyed() && NoDups(ns)
      requires |gs| == |ns| && forall j :: 0 <= j < |ns| ==> ns[j] in inputs && gs[j] == inputs[ns[j]]
      ensures NoDups(gs)
      ensures forall n :: n in inputs && n !in ns ==> inputs[n] !in gs
    {
      forall n | n in inputs && n !in ns ensures inputs[n] !in gs {
        forall j | 0 <= j < |gs| ensures gs[j] != inputs[n] {
          assert gs[j].key == ns[j];
        }
      }
      forall j, k | 0 <= j < k < |gs| ensures gs[j] != gs[k] {
        assert gs[j].key == ns[j] && gs[k].key == ns[k];
      }
    }

    /** A step that touches neither the registry nor any group changes no
        group's view. */
    twostate lemma ViewsUnmoved()
      requires old(ReprOk()) && unchanged(this) && unchanged(old(Repr))
      ensures ReprOk() && Views() == old(Views())
    {
      assert forall n :: n in inputs ==> inputs[n].View() == old(inputs[n].View());
    }

    /** The fan-out of `onKeyDown` / `onKeyUp`: the action on the groups
        with a key of code `code`, in name order; no other group changes. */
    method FanOut(a: Action, code: int, pads: seq<Gamepad>) returns (calls: seq<Call>, error: Option<string>)
      requires ReprOk() && Keyed() && NoDups(names) && forall n :: n in names ==> n in inputs
      modifies inputs.Values
      ensures kb.keyboardState == old(kb.keyboardState)
      ensures var ks := KeyedNames(names, inputs, code);
        var r := RunAll(a, ViewsOf(old(Views()), ks), kb.keyboardState, pads);
        (forall j :: 0 <= j < |ks| ==> inputs[ks[j]].View() == r.views[j]) &&
        (forall n :: n in inputs && n !in ks ==> inputs[n].View() == old(Views())[n]) &&
        calls == r.calls && error == r.error
    {
      ghost var ks := KeyedNames(names, inputs, code);
      KeyedNamesSpec(names, inputs, code);
      var inps := GetInputsByKeyCode(code);
      calls, error := RunOn(a, inps, ks, ViewsOf(Views(), ks), pads);
    }

    /** The action on the groups `inps`, which are those named `ks`, with
        views `vs`, in turn; no other group changes. */
    method RunOn(a: Action, inps: seq<GameInputGroup>, ghost ks: seq<string>, ghost vs: seq<GroupView>, pads: seq<Gamepad>)
      returns (calls: seq<Call>, error: Option<string>)
      requires ReprOk() && Keyed() && NoDups(ks)
      requires |inps| == |ks| && forall j :: 0 <= j < |ks| ==> ks[j] in inputs && inps[j] == inputs[ks[j]]
      requires |vs| == |ks| && forall j :: 0 <= j < |ks| ==> inps[j].View() == vs[j]
      modifies inputs.Values
      ensures var r := RunAll(a, vs, kb.keyboardState, pads);
        (forall j :: 0 <= j < |ks| ==> inputs[ks[j]].View() == r.views[j]) &&
        (forall n :: n in inputs && n !in ks ==> inputs[n].View() == old(Views())[n]) &&
        calls == r.calls && error == r.error
    {
      GroupsDistinct(ks, inps);
      calls, error := RunGroups(a, inps, vs, kb.keyboardState, pads);
      forall n | n in inputs && n !in ks ensures inputs[n].View() == old(inputs[n].View()) {
        assert inputs[n] !in inps;
      }
    }

    /** `onKeyDown(e)`: every group with a key of that code is pressed, in
        name order, and those not yet pressed call their press listeners;
        no other group changes. */
    method OnKeyDown(code: int, pads: seq<Gamepad>) returns (calls: seq<Call>)
      requires Valid()
      modifies inputs.Values
      ensures Valid()
      ensures kb.keyboardState == old(kb.keyboardState)
      ensures var ks := KeyedNames(names, inputs, code);
        (forall j :: 0 <= j < |ks| ==> inputs[ks[j]].View() == old(Views())[ks[j]].(isPressed := true)) &&
        (forall n :: n in inputs && n !in ks ==> inputs[n].View() == old(Views())[n]) &&
        calls == PressCalls(ViewsOf(old(Views()), ks))
    {
      var error;
      calls, error := FanOut(OnPress, code, pads);
      PressAllSpec(ViewsOf(old(Views()), KeyedNames(names, inputs, code)), kb.keyboardState, pads);
    }

    /** `onKeyUp(e)`: every group with a key of that code gets its release
        turn, in name order, until one throws; no other group changes. */
    method OnKeyUp(code: int, pads: seq<Gamepad>) returns (calls: seq<Call>, error: Option<string>)
      requires Valid()
      modifies inputs.Values
      ensures Valid()
      ensures kb.keyboardState == old(kb.keyboardState)
      ensures var ks := KeyedNames(names, inputs, code);
        var r := RunAll(OnRelease, ViewsOf(old(Views()), ks), kb.keyboardState, pads);
        (forall j :: 0 <= j < |ks| ==> inputs[ks[j]].View() == r.views[j]) &&
        (forall n :: n in inputs && n !in ks ==> inputs[n].View() == old(Views())[n]) &&
        calls == r.calls && error == r.error
    {
      calls, error := FanOut(OnRelease, code, pads);
    }

    /** `poll()`: one turn for every group, in name order, until one
        throws. */
    method Poll(pads: seq<Gamepad>) returns (calls: seq<Call>, error: Option<string>)
      requires Valid()
      modifies inputs.Values
      ensures Valid()
      ensures var r := RunAll(OnPoll, ViewsOf(old(Views()), names), kb.keyboardState, pads);
        (forall j :: 0 <= j < |names| ==> inputs[names[j]].View() == r.views[j]) &&
        calls == r.calls && error == r.error
    {
      var gs := GroupsOf(inputs, names);
      calls, error := RunOn(OnPoll, gs, names, ViewsOf(Views(), names), pads);
    }

    /** A key-down event on the document. It reaches `KeyInput.onKeyDown`
        only while the key listeners are installed. */
    method DocumentKeyDown(code: int, pads: seq<Gamepad>) returns (calls: seq<Call>)
      requires Valid()
      modifies kb, inputs.Values
      ensures Valid()
      ensures !old(kb.documentHooks) ==> kb.keyboardState == old(kb.keyboardState) && Views() == old(Views()) && calls == []
      ensures old(kb.documentHooks) ==> kb.keyboardState == KeyInput.TableStep(old(kb.keyboardState), KeyInput.Down(code))
      ensures old(kb.documentHooks) && KeyInput.IsEdge(old(kb.keyboardState), KeyInput.Down(code)) ==>
        var ks := KeyedNames(names, inputs, code);
        (forall j :: 0 <= j < |ks| ==> inputs[ks[j]].View() == old(Views())[ks[j]].(isPressed := true)) &&
        (forall n :: n in inputs && n !in ks ==> inputs[n].View() == old(Views())[n]) &&
        calls == PressCalls(ViewsOf(old(Views()), ks))
      ensures !KeyInput.IsEdge(old(kb.keyboardState), KeyInput.Down(code)) ==> Views() == old(Views()) && calls == []
    {
      calls := [];
      if kb.documentHooks {
        calls := KeyDownHooked(code, pads);
      }
    }

    /** `KeyInput.onKeyDown(e)` with the key listeners installed: a key that
        was up is marked down and forwarded to the registry's `onKeyDown`. */
    method KeyDownHooked(code: int, pads: seq<Gamepad>) returns (calls: seq<Call>)
      requires Valid() && kb.documentHooks
      modifies kb, inputs.Values
      ensures Valid()
      ensures kb.keyboardState == KeyInput.TableStep(old(kb.keyboardState), KeyInput.Down(code))
      ensures KeyInput.IsEdge(old(kb.keyboardState), KeyInput.Down(code)) ==>
        var ks := KeyedNames(names, inputs, code);
        (forall j :: 0 <= j < |ks| ==> inputs[ks[j]].View() == old(Views())[ks[j]].(isPressed := true)) &&
        (forall n :: n in inputs && n !in ks ==> inputs[n].View() == old(Views())[n]) &&
        calls == PressCalls(ViewsOf(old(Views()), ks))
      ensures !KeyInput.IsEdge(old(kb.keyboardState), KeyInput.Down(code)) ==> Views() == old(Views()) && calls == []
    {
      var forwarded := TableDown(code);
      calls := [];
      if forwarded.Some? {
        calls := OnKeyDown(code, pads);
      }
    }

    /** The table step of `KeyInput.onKeyDown`; no group changes. */
    method TableDown(code: int) returns (forwarded: Option<nat>)
      requires Valid() && kb.documentHooks
      modifies kb
      ensures Valid() && Views() == old(Views())
      ensures kb.keyboardState == KeyInput.TableStep(old(kb.keyboardState), KeyInput.Down(code))
      ensures forwarded.Some? <==> KeyInput.IsEdge(old(kb.keyboardState), KeyInput.Down(code))
    {
      forwarded := kb.OnKeyDown(code);
      ViewsUnmoved();
    }

    /** The table step of `KeyInput.onKeyUp`; no group changes. */
    method TableUp(code: int) returns (forwarded: Option<nat>)
      requires Valid() && kb.documentHooks
      modifies kb
      ensures Valid() && Views() == old(Views())
      ensures kb.keyboardState == KeyInput.TableStep(old(kb.keyboardState), KeyInput.Up(code))
      ensures forwarded.Some? <==> KeyInput.IsEdge(old(kb.keyboardState), KeyInput.Up(code))
    {
      forwarded := kb.OnKeyUp(code);
      ViewsUnmoved();
    }

    /** A key-up event on the document, while the key listeners are
        installed. */
    method DocumentKeyUp(code: int, pads: seq<Gamepad>) returns (calls: seq<Call>, error: Option<string>)
      requires Valid()
      modifies kb, inputs.Values
      ensures Valid()
      ensures !old(kb.documentHooks) ==>
        kb.keyboardState == old(kb.keyboardState) && Views() == old(Views()) && calls == [] && error.None?
      ensures old(kb.documentHooks) ==> kb.keyboardState == KeyInput.TableStep(old(kb.keyboardState), KeyInput.Up(code))
      ensures old(kb.documentHooks) && KeyInput.IsEdge(old(kb.keyboardState), KeyInput.Up(code)) ==>
        var ks := KeyedNames(names, inputs, code);
        var r := RunAll(OnRelease, ViewsOf(old(Views()), ks), kb.keyboardState, pads);
        (forall j :: 0 <= j < |ks| ==> inputs[ks[j]].View() == r.views[j]) &&
        (forall n :: n in inputs && n !in ks ==> inputs[n].View() == old(Views())[n]) &&
        calls == r.calls && error == r.error
      ensures !KeyInput.IsEdge(old(kb.keyboardState), KeyInput.Up(code)) ==> Views() == old(Views()) && calls == [] && error.None?
    {
      calls, error := [], None;
      if kb.documentHooks {
        calls, error := KeyUpHooked(code, pads);
      }
    }

    /** `KeyInput.onKeyUp(e)` with the key listeners installed: only a key
        that was down is marked up and forwarded, to the registry's
        `onKeyUp`. */
    method KeyUpHooked(code: int, pads: seq<Gamepad>) returns (calls: seq<Call>, error: Option<string>)
      requires Valid() && kb.documentHooks
      modifies kb, inputs.Values
      ensures Valid()
      ensures kb.keyboardState == KeyInput.TableStep(old(kb.keyboardState), KeyInput.Up(code))
      ensures KeyInput.IsEdge(old(kb.keyboardState), KeyInput.Up(code)) ==>
        var ks := KeyedNames(names, inputs, code);
        var r := RunAll(OnRelease, ViewsOf(old(Views()), ks), kb.keyboardState, pads);
        (forall j :: 0 <= j < |ks| ==> inputs[ks[j]].View() == r.views[j]) &&
        (forall n :: n in inputs && n !in ks ==> inputs[n].View() == old(Views())[n]) &&
        calls == r.calls && error == r.error
      ensures !KeyInput.IsEdge(old(kb.keyboardState), KeyInput.Up(code)) ==> Views() == old(Views()) && calls == [] && error.None?
    {
      var forwarded := TableUp(code);
      calls, error := [], None;
      if forwarded.Some? {
        calls, error := OnKeyUp(code, pads);
      }
    }

    /** The loop of `destroy` over the remaining groups: whether one of
        them has keys. */
    method AnyKeyed() returns (b: bool)
      requires forall n :: n in names <==> n in inputs
      ensures b <==> HasKeyed()
    {
      for i := 0 to |names|
        invariant forall j :: 0 <= j < i ==> inputs[names[j]].keys == []
      {
        if inputs[names[i]].keys != [] {
          return true;
        }
      }
      forall n | n in inputs ensures inputs[n].keys == [] {
        var j :| 0 <= j < |names| && names[j] == n;
      }
      return false;
    }

    /** The first half of `destroy` for a registered name: the group's
        element inputs take their handlers off the page, and the entry is
        deleted; what comes off each page element of `watched` is that
        group's handlers on it, if any. */
    method DropGroup(n: string, ghost watched: set<DomElement>)
      requires Valid() && n in inputs
      modifies this, DomsOf(inputs[n].elements)
      ensures Inner() && Repr == old(Repr)
      ensures names == Without(old(names), n) && inputs == old(inputs) - {n}
      ensures Views() == old(Views()) - {n}
      ensures forall d :: d in watched ==>
        d.listeners == old(d.listeners) - AttachedOn(d, old(inputs[n].elements), multiset{})
      ensures kb.keyboardState == old(kb.keyboardState) && kb.ListeningKeys() == old(kb.ListeningKeys())
      ensures HasKeyed() ==> kb.ListeningKeys()
    {
      ghost var es := inputs[n].elements;
      DetachGroup(n, watched);
      RemoveEntry(n, watched);
      assert forall d :: d in watched ==> d.listeners == old(d.listeners) - AttachedOn(d, es, multiset{});
    }

    /** `ei.removeListeners()` for each element input of the group; what
        comes off each page element of `watched` is that group's handlers
        on it, if any. */
    method DetachGroup(n: string, ghost watched: set<DomElement>)
      requires Valid() && n in inputs
      modifies DomsOf(inputs[n].elements)
      ensures Valid() && Views() == old(Views()) && unchanged(this, kb)
      ensures forall d :: d in watched ==>
        d.listeners == old(d.listeners) - AttachedOn(d, inputs[n].elements, multiset{})
    {
      DetachAll(inputs[n].elements);
      ViewsUnmoved();
      forall d | d in watched && d !in DomsOf(inputs[n].elements)
        ensures d.listeners == old(d.listeners) - AttachedOn(d, inputs[n].elements, multiset{})
      {
        AttachedElsewhere(d, inputs[n].elements, multiset{});
      }
    }

    /** `delete inputs[name]`, after which the order of the other names is
        kept; no page element of `watched` changes. */
    method RemoveEntry(n: string, ghost watched: set<DomElement>)
      requires Valid() && n in inputs
      modifies this
      ensures Inner() && Repr == old(Repr)
      ensures names == Without(old(names), n) && inputs == old(inputs) - {n}
      ensures Views() == old(Views()) - {n}
      ensures kb.keyboardState == old(kb.keyboardState) && kb.ListeningKeys() == old(kb.ListeningKeys())
      ensures HasKeyed() ==> kb.ListeningKeys()
      ensures forall d :: d in watched ==> d.listeners == old(d.listeners)
    {
      inputs := inputs - {n};
      names := Without(names, n);
      ViewsRemoved(n);
    }

    /** Deleting an entry, and touching no group, deletes its view. */
    twostate lemma ViewsRemoved(n: string)
      requires old(ReprOk()) && inputs == old(inputs) - {n} && Repr == old(Repr) && unchanged(old(Repr))
      ensures ReprOk() && Views() == old(Views()) - {n}
    {
      assert forall m :: m in inputs ==> inputs[m].View() == old(inputs[m].View());
      MinusKey(old(Views()), Views(), n);
    }

    /** The end of `destroy`: the key listeners come off, and true is
        returned, when they are installed and no remaining group has keys;
        otherwise nothing changes and the result is `undefined`. No page
        element of `watched` changes. */
    method ReleaseKeys(ghost watched: set<DomElement>) returns (r: Option<bool>)
      requires Inner() && (HasKeyed() ==> kb.ListeningKeys())
      modifies kb
      ensures Valid() && Views() == old(Views()) && kb.keyboardState == old(kb.keyboardState)
      ensures forall d :: d in watched ==> d.listeners == old(d.listeners)
      ensures r == Some(true) <==> old(kb.ListeningKeys()) && !HasKeyed()
      ensures r != Some(true) ==> r == None && kb.ListeningKeys() == old(kb.ListeningKeys())
    {
      if !kb.ListeningKeys() {
        return None;
      }
      var keyed := AnyKeyed();
      if keyed {
        return None;
      }
      UnhookKeys();
      return Some(true);
    }

    /** The `removeKeyListeners` step of `destroy`, once no group has keys. */
    method UnhookKeys()
      requires Inner() && !HasKeyed() && kb.ListeningKeys()
      modifies kb
      ensures Valid() && Views() == old(Views()) && kb.keyboardState == old(kb.keyboardState)
      ensures !kb.ListeningKeys()
    {
      kb.RemoveKeyListeners(OwnKeyListeners);
      ViewsUnmoved();
    }

    /** `destroy` of a registered name; page elements of `watched` lose that
        group's handlers on them. */
    method DestroyKnown(n: string, ghost watched: set<DomElement>) returns (r: Option<bool>)
      requires Valid() && n in inputs
      modifies this, kb, DomsOf(inputs[n].elements)
      ensures Valid() && kb.keyboardState == old(kb.keyboardState)
      ensures names == Without(old(names), n) && inputs == old(inputs) - {n} && Views() == old(Views()) - {n}
      ensures forall d :: d in watched ==>
        d.listeners == old(d.listeners) - AttachedOn(d, old(inputs[n].elements), multiset{})
      ensures r == Some(true) <==> old(kb.ListeningKeys()) && !HasKeyed()
      ensures r != Some(true) ==> r == None && kb.ListeningKeys() == old(kb.ListeningKeys())
    {
      ghost var es := inputs[n].elements;
      DropGroup(n, watched);
      r := ReleaseKeys(watched);
      assert forall d :: d in watched ==> d.listeners == old(d.listeners) - AttachedOn(d, es, multiset{});
    }

    /** `destroy(name)`: throws on an invalid name and returns false for an
        unknown one; otherwise as `DestroyKnown`. Only the page elements of
        the destroyed group may change. */
    method Destroy(name: Dyn<string>) returns (r: Completion<Option<bool>>)
      requires Valid()
      modifies this, kb, if ValidName(name) then DomsOf(Replaced(name.value)) else {}
      ensures Valid() && kb.keyboardState == old(kb.keyboardState)
      ensures !ValidName(name) ==>
        r == Thrown("Invalid name for input.") && unchanged(this) && kb.ListeningKeys() == old(kb.ListeningKeys())
      ensures ValidName(name) && name.value !in old(inputs) ==>
        r == Normal(Some(false)) && unchanged(this) && kb.ListeningKeys() == old(kb.ListeningKeys())
      ensures ValidName(name) && name.value in old(inputs) ==>
        var n := name.value;
        names == Without(old(names), n) && inputs == old(inputs) - {n} && Views() == old(Views()) - {n} &&
        (forall d :: d in DomsOf(old(inputs[n].elements)) ==>
          d.listeners == old(d.listeners) - AttachedOn(d, old(inputs[n].elements), multiset{})) &&
        (r == Normal(Some(true)) <==> old(kb.ListeningKeys()) && !HasKeyed()) &&
        (r != Normal(Some(true)) ==> r == Normal(None) && kb.ListeningKeys() == old(kb.ListeningKeys()))
    {
      if !ValidName(name) {
        return Thrown("Invalid name for input.");
      }
      var n := name.value;
      if n !in inputs {
        return Normal(Some(false));
      }
      var o := DestroyKnown(n, DomsOf(inputs[n].elements));
      return Normal(o);
    }

    /** A step that changes one group object and nothing else of the
        registry changes only that group's view. */
    twostate lemma ViewChanged(n: string)
      requires old(ReprOk()) && old(Keyed()) && unchanged(this) && n in inputs
      requires forall o :: o in old(Repr) && o != inputs[n] ==> unchanged(o)
      ensures ReprOk() && Views() == old(Views())[n := inputs[n].View()]
    {
      forall m | m in inputs && m != n ensures inputs[m].View() == old(inputs[m].View()) {
        assert inputs[m].key == m && inputs[n].key == n;
        assert inputs[m] in old(Repr) && unchanged(inputs[m]);
        var es := inputs[m].elements;
        forall i | 0 <= i < |es| ensures es[i].isPressed == old(es[i].isPressed) {
          assert es[i] in old(Repr) && es[i] as object != inputs[n] as object;
        }
        assert PressedBits(es) == old(PressedBits(es));
      }
      UpdateAt(old(Views()), Views(), n);
    }

    /** `on(name, type, callback)`: throws on an invalid name, on a type
        other than 'press' and 'release', and on an unknown name, in that
        order; otherwise the callback joins the group's list of that type
        unless it is already there. */
    method On(name: Dyn<string>, kind: string, cb: nat) returns (r: Completion<()>)
      requires Valid()
      modifies inputs.Values
      ensures Valid() && unchanged(this)
      ensures !ValidName(name) ==> r == Thrown("Invalid input name.")
      ensures ValidName(name) && ParseEventType(kind).None? ==> r == Thrown("Invalid input event type.")
      ensures ValidName(name) && ParseEventType(kind).Some? && name.value !in inputs ==>
        r == Thrown("Input with name '" + name.value + "' not found.")
      ensures r.Thrown? ==> Views() == old(Views())
      ensures r.Normal? <==> ValidName(name) && ParseEventType(kind).Some? && name.value in inputs
      ensures r.Normal? ==> Views() == old(Views())[name.value := Listen(old(Views())[name.value], ParseEventType(kind).value, cb)]
    {
      if !ValidName(name) {
        return Thrown("Invalid input name.");
      }
      var t := ParseEventType(kind);
      if t.None? {
        return Thrown("Invalid input event type.");
      }
      var n := name.value;
      if n !in inputs {
        return Thrown("Input with name '" + n + "' not found.");
      }
      inputs[n].AddListenerTo(t.value, cb);
      ViewChanged(n);
      return Normal(());
    }

    /** `off(name, type, callback)`, for a type of the declared
        `GameInputEventType`. An unknown name is only warned about, after
        which reading its listeners throws. Otherwise the last occurrence of
        the callback in that type's list is removed, and the result says
        whether there was one (when there is none, the source warns). */
    method Off(name: string, t: EventType, cb: nat) returns (r: Completion<bool>)
      requires Valid()
      modifies inputs.Values
      ensures Valid() && unchanged(this)
      ensures name !in inputs ==>
        r == Thrown("TypeError: Cannot read properties of undefined (reading 'listeners')") &&
        Views() == old(Views())
      ensures r.Normal? <==> name in inputs
      ensures r.Normal? ==>
        (r.value <==> cb in Listeners(old(Views())[name], t)) &&
        Views() == old(Views())[name := Unlisten(old(Views())[name], t, cb)]
    {
      if name !in inputs {
        return Thrown("TypeError: Cannot read properties of undefined (reading 'listeners')");
      }
      var found := inputs[name].RemoveListenerFrom(t, cb);
      ViewChanged(name);
      return Normal(found);
    }

    /** The `addKeyListeners` step of `create`: the key listeners go in when
        they are wanted and not yet installed. */
    method HookKeys(wanted: bool)
      requires Valid()
      modifies kb
      ensures Inner() && Views() == old(Views()) && kb.keyboardState == old(kb.keyboardState)
      ensures kb.ListeningKeys() <==> old(kb.ListeningKeys()) || wanted
    {
      if !kb.ListeningKeys() && wanted {
        kb.AddKeyListeners(OwnKeyListeners);
      }
      ViewsUnmoved();
    }

    /** Storing a new group changes no other group's view. */
    twostate lemma ViewsAdded(n: string)
      requires old(ReprOk()) && ReprOk() && n !in old(inputs) && n in inputs
      requires inputs == old(inputs)[n := inputs[n]] && old(Repr) <= Repr && unchanged(old(Repr))
      ensures Views() == old(Views())[n := inputs[n].View()]
    {
      forall m | m in old(inputs) ensures inputs[m].View() == old(inputs[m].View()) {
        var es := inputs[m].elements;
        assert inputs[m] in old(Repr);
        forall i | 0 <= i < |es| ensures es[i].isPressed == old(es[i].isPressed) {
          assert es[i] in old(Repr);
        }
        assert PressedBits(es) == old(PressedBits(es));
      }
      UpdateAt(old(Views())[n := inputs[n].View()], Views(), n);
    }

    /** `inputs[name] = input` for a new group under a name not in use;
        the other groups keep their views. */
    method AddGroup(g: GameInputGroup, n: string)
      requires Inner() && n !in inputs && n != "" && g !in Repr && forall e :: e in g.elements ==> e !in Repr
      requires g.Valid() && g.key == n && g.name == windowName
      requires kb.ListeningKeys() <==> HasKeyed() || g.keys != []
      modifies this
      ensures Valid() && names == old(names) + [n] && inputs == old(inputs)[n := g]
      ensures Views() == old(Views())[n := g.View()]
    {
      StoreGroup(g, n);
      ViewsAdded(n);
    }

    /** `new GameInputGroup(info)`, for the name `n`: each page element of
        `watched` gains the group's handlers on it, if any. */
    method NewGroup(info: GroupInfo, n: string, ghost watched: set<DomElement>) returns (g: GameInputGroup)
      requires ReprOk()
      modifies info.elements
      ensures kb.keyboardState == old(kb.keyboardState)
      ensures fresh(g) && g.Valid() && g.key == n && g.name == windowName
      ensures g.View() == FreshView(info, windowName) && g.keys == MakeKeys(info.keyCodes)
      ensures forall e :: e in g.elements ==> fresh(e)
      ensures forall d :: d in watched ==>
        d.listeners == old(d.listeners) + AttachedOn(d, g.elements, Snuffed(isIOS, iOSHacks))
    {
      g := new GameInputGroup(info, n, windowName, isIOS, iOSHacks);
      forall d | d in watched && d !in info.elements
        ensures d.listeners == old(d.listeners) + AttachedOn(d, g.elements, Snuffed(isIOS, iOSHacks))
      {
        AttachedOutside(d, g.elements, info.elements, Snuffed(isIOS, iOSHacks));
      }
    }

    /** The assignment `inputs[name] = input` of a new group, with the
        invariant it keeps. */
    method StoreGroup(g: GameInputGroup, n: string)
      requires Inner() && n !in inputs && n != "" && g !in Repr && forall e :: e in g.elements ==> e !in Repr
      requires g.Valid() && g.key == n && g.name == windowName
      modifies this
      ensures Inner() && names == old(names) + [n] && inputs == old(inputs)[n := g]
      ensures Repr == old(Repr) + {g} + set e | e in g.elements
      ensures HasKeyed() <==> old(HasKeyed()) || g.keys != []
    {
      inputs := inputs[n := g];
      names := names + [n];
      Repr := Repr + {g} + set e | e in g.elements;
      assert ReprOk();
      if g.keys != [] {
        assert inputs[n].keys != [];
      } else {
        assert HasKeyed() <==> old(HasKeyed()) by {
          assert forall m :: m in inputs && inputs[m].keys != [] ==> m in old(inputs) && old(inputs)[m].keys != [];
          assert forall m :: m in old(inputs) ==> inputs[m] == old(inputs)[m];
        }
      }
      assert Inner();
    }

    /** `create(info)`: throws on an invalid name. Otherwise a group under
        that name is destroyed first, the key listeners go in if the new
        group has keys, and the new group is stored under the name, after
        every other. */
    method Create(info: GroupInfo) returns (r: Completion<()>)
      requires Valid()
      modifies this, kb, info.elements, if ValidName(info.name) then DomsOf(Replaced(info.name.value)) else {}
      ensures Valid() && kb.keyboardState == old(kb.keyboardState)
      ensures !ValidName(info.name) ==>
        r == Thrown("Invalid name for input.") && unchanged(this) && unchanged(kb) &&
        forall d :: d in info.elements ==> d.listeners == old(d.listeners)
      ensures ValidName(info.name) ==>
        var n := info.name.value;
        r == Normal(()) &&
        names == Without(old(names), n) + [n] &&
        inputs.Keys == old(inputs).Keys + {n} && fresh(inputs[n]) &&
        Views() == old(Views())[n := FreshView(info, windowName)] &&
        forall d :: d in DomsOf(old(Replaced(n))) || d in info.elements ==>
          d.listeners == old(d.listeners) - AttachedOn(d, old(Replaced(n)), multiset{}) +
            AttachedOn(d, inputs[n].elements, Snuffed(isIOS, iOSHacks))
    {
      if !ValidName(info.name) {
        return Thrown("Invalid name for input.");
      }
      CreateNamed(info, info.name.value);
      r := Normal(());
    }

    /** The element inputs of the group a name holds, if any. */
    ghost function Replaced(n: string): seq<ElementInput>
      reads this, inputs.Values
    {
      if n in inputs then inputs[n].elements else []
    }

    /** `create` for a valid name: the replaced group's element listeners
        come off, then the new group's go on; no other page element
        changes. */
    method CreateNamed(info: GroupInfo, n: string)
      requires Valid() && n != ""
      modifies this, kb, info.elements, DomsOf(Replaced(n))
      ensures Valid() && kb.keyboardState == old(kb.keyboardState)
      ensures names == Without(old(names), n) + [n]
      ensures inputs.Keys == old(inputs).Keys + {n} && fresh(inputs[n])
      ensures Views() == old(Views())[n := FreshView(info, windowName)]
      ensures forall d :: d in DomsOf(old(Replaced(n))) || d in info.elements ==>
        d.listeners == old(d.listeners) - AttachedOn(d, old(Replaced(n)), multiset{}) +
          AttachedOn(d, inputs[n].elements, Snuffed(isIOS, iOSHacks))
    {
      ghost var v0, i0 := Views(), inputs;
      ghost var touched := DomsOf(Replaced(n)) + set d | d in info.elements;
      Replace(n, touched);
      Install(info, n, touched);
      MinusThenUpdate(v0, n, FreshView(info, windowName));
      MinusThenUpdate(i0, n, inputs[n]);
    }

    /** The rest of `create` once the name is free: the key listeners go in
        if wanted, and the new group is built over `info.elements` and
        stored. Its handlers are what is added to each page element in
        `watched`. */
    method Install(info: GroupInfo, n: string, ghost watched: set<DomElement>)
      requires Valid() && n != "" && n !in inputs
      modifies this, kb, info.elements
      ensures Valid() && kb.keyboardState == old(kb.keyboardState)
      ensures names == old(names) + [n] && inputs == old(inputs)[n := inputs[n]] && fresh(inputs[n])
      ensures Views() == old(Views())[n := FreshView(info, windowName)]
      ensures forall d :: d in watched ==>
        d.listeners == old(d.listeners) + AttachedOn(d, inputs[n].elements, Snuffed(isIOS, iOSHacks))
    {
      HookKeys(|info.keyCodes| > 0);
      ghost var v0 := Views();
      var g := NewGroup(info, n, watched);
      ViewsUnmoved();
      AddGroup(g, n);
      assert Views() == v0[n := FreshView(info, windowName)];
    }

    /** The `destroy(name)` step of `create`, taken when the name is in use.
        The group's handlers are what is taken off each page element in
        `watched`. */
    method Replace(n: string, ghost watched: set<DomElement>)
      requires Valid()
      modifies this, kb, DomsOf(Replaced(n))
      ensures Valid() && kb.keyboardState == old(kb.keyboardState)
      ensures names == Without(old(names), n) && inputs == old(inputs) - {n} && Views() == old(Views()) - {n}
      ensures forall d :: d in watched ==>
        d.listeners == old(d.listeners) - AttachedOn(d, old(Replaced(n)), multiset{})
    {
      if n in inputs {
        var _ := DestroyKnown(n, watched);
      } else {
        assert Without(names, n) == names;
        assert Views() - {n} == Views();
      }
    }

    /** `getPressed(obj)`: every entry of the object is overwritten with the
        pressed state of the group of that name, and the object returned. */
    method GetPressed(obj: Record<bool>) returns (res: Record<bool>)
      requires obj.Valid()
      modifies obj
      ensures res == obj && obj.Valid() && obj.keys == old(obj.keys)
      ensures obj.entries.Keys == old(obj.entries).Keys
      ensures forall k :: k in obj.entries ==> obj.entries[k] == Pressed(k)
    {
      for i := 0 to |obj.keys|
        invariant obj.keys == old(obj.keys) && obj.entries.Keys == old(obj.entries).Keys
        invariant forall j :: 0 <= j < i ==> obj.entries[obj.keys[j]] == Pressed(obj.keys[j])
      {
        var k := obj.keys[i];
        obj.entries := obj.entries[k := Pressed(k)];
      }
      return obj;
    }

    /** The reads of `value(name)` for the names `ks`. */
    function Reads(ks: seq<string>, pads: seq<Gamepad>): (rs: seq<Completion<GI.Number>>)
      requires ReprOk()
      reads this, kb, Repr
      ensures |rs| == |ks| && forall j :: 0 <= j < |ks| ==> rs[j] == Value(ks[j], pads)
    {
      if ks == [] then [] else [Value(ks[0], pads)] + Reads(ks[1..], pads)
    }

    /** `getValues(obj)`: every entry of the object is overwritten with the
        value of the group of that name, in key order, and the object
        returned; a read that throws ends the loop and the call. */
    method GetValues(obj: Record<GI.Number>, pads: seq<Gamepad>) returns (r: Completion<Record<GI.Number>>)
      requires ReprOk() && obj.Valid() && obj !in Repr
      modifies obj
      ensures obj.keys == old(obj.keys)
      ensures
        var f := Fill(old(obj.entries), obj.keys, Reads(obj.keys, pads));
        obj.entries == f.entries &&
        (r.Thrown? <==> f.error.Some?) &&
        (r.Thrown? ==> r.message == f.error.value) &&
        (r.Normal? ==> r.value == obj)
    {
      ghost var rs := Reads(obj.keys, pads);
      ghost var target := Fill(obj.entries, obj.keys, rs);
      var i := 0;
      while i < |obj.keys|
        invariant 0 <= i <= |obj.keys| && obj.keys == old(obj.keys)
        invariant Fill(obj.entries, obj.keys[i..], rs[i..]) == target
      {
        var k := obj.keys[i];
        assert obj.keys[i..][1..] == obj.keys[i + 1..] && rs[i..][1..] == rs[i + 1..];
        var v := Value(k, pads);
        assert v == rs[i];
        if v.Thrown? {
          return Thrown(v.message);
        }
        obj.entries := obj.entries[k := v.value];
        i := i + 1;
      }
      assert obj.keys[i..] == [];
      return Normal(obj);
    }
  }

  /** The view of the group "jump" of the window "win", bound to key 32,
      with the press listener 1 and the release listener 2. */
  function JumpView(pressed: bool): GroupView
  {
    GroupView("win", pressed, [32], [], [], [1], [2])
  }

  /** A registry for the window "win" holding only the group "jump", the
      object `g` of view `v`, pressed exactly while key 32 is down, with the
      key listeners installed. */
  ghost predicate JumpState(reg: Registry, g: GameInputGroup, v: GroupView)
    reads reg, reg.kb, reg.Repr
  {
    reg.Valid() && reg.windowName == "win" && reg.names == ["jump"] && reg.inputs["jump"] == g &&
    reg.Views()["jump"] == v && reg.kb.documentHooks &&
    (KeyInput.IsDown(reg.kb.keyboardState, 32) <==> v.isPressed)
  }

  /** The argument of `create({name: 'jump', keyCodes: [32]})`. */
  const JumpInfo := GroupInfo(Typed("jump"), [32], [], [])

  /** `create({name: 'jump', keyCodes: [32]})` on a fresh registry for the
      window "win": the group `g` is there, with no listener yet, and the
      key listeners are installed. */
  method JumpCreate() returns (reg: Registry, g: GameInputGroup)
    ensures fresh(reg) && fresh(reg.kb) && fresh(g)
    ensures JumpState(reg, g, GroupView("win", false, [32], [], [], [], []))
  {
    reg := new Registry("win", false, false);
    var _ := reg.Create(JumpInfo);
    g := reg.inputs["jump"];
    assert FreshView(JumpInfo, "win") == GroupView("win", false, [32], [], [], [], []);
    JumpHooked(reg);
  }

  /** The groups of a registry whose only name is "jump". */
  lemma OnlyJump(reg: Registry)
    requires reg.Valid() && reg.names == ["jump"]
    ensures reg.inputs.Values == {reg.inputs["jump"]}
  {
  }

  /** A registry whose only group has a key has its key listeners
      installed. */
  lemma JumpHooked(reg: Registry)
    requires reg.Valid() && "jump" in reg.inputs && reg.Views()["jump"].keyCodes == [32]
    ensures reg.kb.documentHooks
  {
    assert reg.inputs["jump"].keys != [] by {
      assert reg.inputs["jump"].View().keyCodes == [32];
    }
    assert reg.HasKeyed();
  }

  /** `on('jump', 'press', 1)` on the created group. */
  method JumpListenPress(reg: Registry, g: GameInputGroup)
    requires JumpState(reg, g, GroupView("win", false, [32], [], [], [], []))
    modifies g
    ensures JumpState(reg, g, GroupView("win", false, [32], [], [], [1], []))
  {
    OnlyJump(reg);
    assert AddListener([], 1) == [1];
    var _ := reg.On(Typed("jump"), "press", 1);
  }

  /** `on('jump', 'release', 2)` on the created group, after the press
      listener. */
  method JumpListenRelease(reg: Registry, g: GameInputGroup)
    requires JumpState(reg, g, GroupView("win", false, [32], [], [], [1], []))
    modifies g
    ensures JumpState(reg, g, JumpView(false))
  {
    OnlyJump(reg);
    assert AddListener([], 2) == [2];
    var _ := reg.On(Typed("jump"), "release", 2);
  }

  /** The first key-down of 32: the group is pressed and its press listener
      called once, with the window name. */
  method JumpPress(reg: Registry, g: GameInputGroup) returns (calls: seq<Call>)
    requires JumpState(reg, g, JumpView(false))
    modifies reg.kb, g
    ensures JumpState(reg, g, JumpView(true)) && calls == [Call(1, "win")] && reg.Pressed("jump")
  {
    OnlyJump(reg);
    assert KeyedNames(reg.names, reg.inputs, 32) == ["jump"];
    calls := reg.DocumentKeyDown(32, []);
    assert Notify([1], "win") == [Call(1, "win")];
  }

  /** A repeated key-down of 32 while it is held calls nothing. */
  method JumpRepeat(reg: Registry, g: GameInputGroup) returns (calls: seq<Call>)
    requires JumpState(reg, g, JumpView(true))
    modifies reg.kb, g
    ensures JumpState(reg, g, JumpView(true)) && calls == [] && reg.Pressed("jump")
  {
    OnlyJump(reg);
    calls := reg.DocumentKeyDown(32, []);
  }

  /** The key-up of 32: the group is released and its release listener
      called once, with the window name. */
  method JumpRelease(reg: Registry, g: GameInputGroup) returns (calls: seq<Call>, error: Option<string>)
    requires JumpState(reg, g, JumpView(true))
    modifies reg.kb, g
    ensures JumpState(reg, g, JumpView(false)) && calls == [Call(2, "win")] && error.None? && !reg.Pressed("jump")
  {
    OnlyJump(reg);
    assert KeyedNames(reg.names, reg.inputs, 32) == ["jump"];
    calls, error := reg.DocumentKeyUp(32, []);
    assert Notify([2], "win") == [Call(2, "win")];
  }

  /** From `create({name: 'jump', keyCodes: [32]})` on a fresh registry
      for the window "win", with a press listener 1 and a release listener 2
      registered through `on`: a key-down of 32 presses the group and calls
      the press listener once, with the window name; a repeated key-down
      calls nothing and leaves it pressed; the key-up of 32 releases the
      group and calls the release listener once. */
  method JumpEndToEnd() returns (down: seq<Call>, pressedAfterDown: bool, repeat: seq<Call>,
                                 up: seq<Call>, upError: Option<string>, pressedAfterUp: bool)
    ensures down == [Call(1, "win")] && pressedAfterDown
    ensures repeat == []
    ensures up == [Call(2, "win")] && upError.None? && !pressedAfterUp
  {
    var reg, g := JumpCreate();
    JumpListenPress(reg, g);
    JumpListenRelease(reg, g);
    down := JumpPress(reg, g);
    pressedAfterDown := reg.Pressed("jump");
    repeat := JumpRepeat(reg, g);
    up, upError := JumpRelease(reg, g);
    pressedAfterUp := reg.Pressed("jump");
  }
}
