/** The generic event emitter (src/InputEmitter.ts): a map from event id to
    the list of callbacks registered for it. User callbacks are opaque
    identities; what an emit does is recorded as the sequence of user
    callbacks it invokes. */
module InputEmitter {
  import opened Common

  /** A stored callback: a user function, or the fresh wrapper that `once`
      registers around a user function. */
  datatype Callback = Fn(id: nat) | OnceWrapper(serial: nat, inner: nat)

  /** The user function a stored callback ends up invoking. */
  function Target(c: Callback): nat
  {
    match c
    case Fn(f) => f
    case OnceWrapper(_, f) => f
  }

  /** Stored lists are non-empty and duplicate-free; ids are non-empty. */
  ghost predicate WellFormed(m: map<string, seq<Callback>>)
  {
    forall id :: id in m ==> id != "" && |m[id]| > 0 && NoDups(m[id])
  }

  /** `listeners` after a successful `on(id, cb)`. */
  function Added(m: map<string, seq<Callback>>, id: string, cb: Callback): map<string, seq<Callback>>
  {
    if id !in m then m[id := [cb]]
    else if IndexOf(m[id], cb) >= 0 then m
    else m[id := m[id] + [cb]]
  }

  /** `listeners` after a successful `off(id, cb)`. */
  function Removed(m: map<string, seq<Callback>>, id: string, cb: Callback): map<string, seq<Callback>>
  {
    if id !in m then m
    else
      var i := IndexOf(m[id], cb);
      if i < 0 then m
      else if |m[id]| < 2 then m - {id}
      else m[id := RemoveAt(m[id], i)]
  }

  /** Registering keeps the stored lists well formed; the callback is then
      present exactly once, at the end if it was new, and no other id moves. */
  lemma AddedSpec(m: map<string, seq<Callback>>, id: string, cb: Callback)
    requires WellFormed(m) && id != ""
    ensures WellFormed(Added(m, id, cb))
    ensures id in Added(m, id, cb) && cb in Added(m, id, cb)[id]
    ensures id in m && cb in m[id] ==> Added(m, id, cb) == m
    ensures id !in m || cb !in m[id] ==>
      Added(m, id, cb)[id] == (if id in m then m[id] else []) + [cb]
    ensures forall other :: other != id ==>
      (other in Added(m, id, cb) <==> other in m) &&
      (other in m ==> Added(m, id, cb)[other] == m[other])
  {
    if id in m && cb !in m[id] {
      var l := m[id] + [cb];
      forall i, j | 0 <= i < j < |l| ensures l[i] != l[j] {
        if j == |l| - 1 { assert l[i] in m[id]; }
      }
    }
  }

  /** Unregistering keeps the stored lists well formed, takes exactly that
      callback out of that id's list (deleting the entry when it was the only
      one), and changes no other id. */
  lemma RemovedSpec(m: map<string, seq<Callback>>, id: string, cb: Callback)
    requires WellFormed(m)
    ensures WellFormed(Removed(m, id, cb))
    ensures id in Removed(m, id, cb) ==> cb !in Removed(m, id, cb)[id]
    ensures id !in m || cb !in m[id] ==> Removed(m, id, cb) == m
    ensures id in m && cb in m[id] ==>
      (id in Removed(m, id, cb) <==> |m[id]| > 1) &&
      (id in Removed(m, id, cb) ==>
        multiset(Removed(m, id, cb)[id]) + multiset{cb} == multiset(m[id]))
    ensures forall other :: other != id ==>
      (other in Removed(m, id, cb) <==> other in m) &&
      (other in m ==> Removed(m, id, cb)[other] == m[other])
  {
    if id in m && cb in m[id] && |m[id]| > 1 {
      var l := m[id];
      var i := IndexOf(l, cb);
      RemoveAtOfNoDups(l, i);
      assert l == l[..i] + [l[i]] + l[i + 1..];
    }
  }

  /** `off` undoes a fresh `on`. */
  lemma OnThenOff(m: map<string, seq<Callback>>, id: string, cb: Callback)
    requires WellFormed(m) && id != ""
    requires id !in m || cb !in m[id]
    ensures Removed(Added(m, id, cb), id, cb) == m
  {
    var a := Added(m, id, cb);
    if id in m {
      var l := m[id];
      assert a[id] == l + [cb];
      assert IndexOf(l + [cb], cb) == |l| by {
        forall j | 0 <= j < |l| ensures (l + [cb])[j] != cb {
          assert (l + [cb])[j] == l[j];
        }
      }
      assert RemoveAt(l + [cb], |l|) == l;
    }
  }

  /** What a wrapper-free list looks like: `once` wrappers dropped. */
  function Plain(s: seq<Callback>): (r: seq<Callback>)
    ensures forall c :: c in r ==> c in s && c.Fn?
    ensures |r| <= |s|
  {
    if s == [] then []
    else (if s[0].Fn? then [s[0]] else []) + Plain(s[1..])
  }

  lemma {:induction false} PlainAppend(a: seq<Callback>, b: seq<Callback>)
    ensures Plain(a + b) == Plain(a) + Plain(b)
  {
    if a == [] {
      assert a + b == b;
    } else {
      assert (a + b)[1..] == a[1..] + b;
      PlainAppend(a[1..], b);
    }
  }

  /** The user functions invoked by calling every callback of `s` in order. */
  function Invoked(s: seq<Callback>): (r: seq<nat>)
    ensures |r| == |s|
    ensures forall i :: 0 <= i < |s| ==> r[i] == Target(s[i])
  {
    if s == [] then [] else [Target(s[0])] + Invoked(s[1..])
  }

  /** `listeners` with `l` stored under `id`; an empty list means no entry. */
  function Store(m: map<string, seq<Callback>>, id: string, l: seq<Callback>): map<string, seq<Callback>>
  {
    if l == [] then m - {id} else m[id := l]
  }

  /** The callbacks `emit`'s loop as written visits: `for (const cb of arr)`
      walks the live array by position; a once wrapper at position `i` calls
      `off`, which splices the array in place while the array is still the
      stored entry (`attached`), or deletes the entry when it holds one
      callback. */
  function LiveRun(arr: seq<Callback>, i: nat, attached: bool): seq<Callback>
    decreases |arr| - i
  {
    if i >= |arr| then []
    else
      var (next, still) := LiveNext(arr, i, attached);
      [arr[i]] + LiveRun(next, i + 1, still)
  }

  /** The live array, and whether it is still stored, after the loop body
      at position `i`. */
  function LiveNext(arr: seq<Callback>, i: nat, attached: bool): (r: (seq<Callback>, bool))
    requires i < |arr|
    ensures |r.0| <= |arr| && (r.1 ==> attached)
  {
    var c := arr[i];
    if c.Fn? || !attached then (arr, attached)
    else if |arr| < 2 then (arr, false)
    else (RemoveAt(arr, IndexOf(arr, c)), true)
  }

  /** The list left stored when that loop ends; empty when the entry was
      deleted. Nothing is ever added to it. */
  function LiveKept(arr: seq<Callback>, i: nat, attached: bool): (r: seq<Callback>)
    ensures forall c :: c in r ==> c in arr
    decreases |arr| - i
  {
    if !attached then []
    else if i >= |arr| then arr
    else
      var (next, still) := LiveNext(arr, i, attached);
      LiveKept(next, i + 1, still)
  }

  /** The user functions the source's `emit` invokes for a stored list. */
  function LiveEmit(s: seq<Callback>): seq<nat>
  {
    Invoked(LiveRun(s, 0, true))
  }

  /** `listeners` after the source's `emit(id)`. */
  function LiveStore(m: map<string, seq<Callback>>, id: string): map<string, seq<Callback>>
    requires id in m
  {
    Store(m, id, LiveKept(m[id], 0, true))
  }

  /** A once wrapper the live loop visits is no longer stored when it ends. */
  lemma {:induction false} LiveVisitedGone(arr: seq<Callback>, i: nat, attached: bool, w: Callback)
    requires NoDups(arr) && w.OnceWrapper? && w in LiveRun(arr, i, attached)
    ensures w !in LiveKept(arr, i, attached)
    decreases |arr| - i
  {
    var c := arr[i];
    if !attached || |arr| < 2 {
    } else if c.Fn? {
      LiveVisitedGone(arr, i + 1, true, w);
    } else {
      var k := IndexOf(arr, c);
      RemoveAtOfNoDups(arr, k);
      if w != c {
        LiveVisitedGone(RemoveAt(arr, k), i + 1, true, w);
      }
    }
  }

  /** The source's `emit(id)` leaves every other id alone, adds nothing to
      the list under `id`, and takes out every once wrapper it called, so
      no later emit calls that wrapper again. */
  lemma LiveStoreSpec(m: map<string, seq<Callback>>, id: string)
    requires WellFormed(m) && id in m
    ensures forall other :: other != id ==>
      (other in LiveStore(m, id) <==> other in m) &&
      (other in m ==> LiveStore(m, id)[other] == m[other])
    ensures id in LiveStore(m, id) ==>
      forall c :: c in LiveStore(m, id)[id] ==> c in m[id]
    ensures forall w :: w in LiveRun(m[id], 0, true) && w.OnceWrapper? ==>
      id !in LiveStore(m, id) || w !in LiveStore(m, id)[id]
  {
    forall w | w in LiveRun(m[id], 0, true) && w.OnceWrapper?
      ensures id !in LiveStore(m, id) || w !in LiveStore(m, id)[id]
    {
      LiveVisitedGone(m[id], 0, true, w);
    }
  }

  lemma {:induction false} LiveRunPlain(arr: seq<Callback>, i: nat, attached: bool)
    requires forall c :: c in arr ==> c.Fn?
    requires i <= |arr|
    ensures LiveRun(arr, i, attached) == arr[i..]
    decreases |arr| - i
  {
    if i < |arr| {
      LiveRunPlain(arr, i + 1, attached);
      assert arr[i..] == [arr[i]] + arr[i + 1..];
    }
  }

  /** Without once wrappers, the live iteration calls every callback. */
  lemma LiveEmitWithoutWrappers(s: seq<Callback>)
    requires forall c :: c in s ==> c.Fn?
    ensures LiveEmit(s) == Invoked(s)
  {
    LiveRunPlain(s, 0, true);
    assert s[0..] == s;
  }

  /** As written, a callback registered right after a once wrapper is
      skipped by the emit in which the wrapper removes itself. */
  lemma LiveEmitSkipsAfterOnce()
    ensures LiveEmit([OnceWrapper(0, 1), Fn(2)]) == [1]
    ensures Invoked([OnceWrapper(0, 1), Fn(2)]) == [1, 2]
  {
    var s := [OnceWrapper(0, 1), Fn(2)];
    assert IndexOf(s, OnceWrapper(0, 1)) == 0;
    assert RemoveAt(s, 0) == [Fn(2)];
    assert LiveRun(s, 0, true) == [OnceWrapper(0, 1)];
  }

  /** The emitter object. */
  class Emitter {
    var listeners: map<string, seq<Callback>>
    /** Serial of the next wrapper `once` creates: every wrapper is a fresh closure. */
    var wrappers: nat

    ghost predicate Valid()
      reads this
    {
      WellFormed(listeners) &&
      forall id, c :: id in listeners && c in listeners[id] && c.OnceWrapper? ==> c.serial < wrappers
    }

    /** A callback a caller can hold: a user function, or a wrapper already made. */
    predicate Known(c: Callback)
      reads this
    {
      c.Fn? || c.serial < wrappers
    }

    constructor ()
      ensures Valid() && listeners == map[] && wrappers == 0
    {
      listeners := map[];
      wrappers := 0;
    }

    /** `on(id, cb)`: throws on an empty or non-string id or a non-function
        callback; otherwise appends `cb` unless it is already registered. */
    method On(id: Dyn<string>, cb: Dyn<Callback>) returns (r: Completion<()>)
      requires Valid()
      requires cb.Typed? ==> Known(cb.value)
      modifies this
      ensures Valid() && wrappers == old(wrappers)
      ensures r.Thrown? <==> !(ValidName(id) && cb.Typed?)
      ensures r.Thrown? ==> listeners == old(listeners)
      ensures r.Normal? ==> listeners == Added(old(listeners), id.value, cb.value)
    {
      if !ValidName(id) || cb.WrongType? {
        return Thrown("Invalid params");
      }
      AddedSpec(listeners, id.value, cb.value);
      var key := id.value;
      if key !in listeners {
        listeners := listeners[key := [cb.value]];
      } else {
        var cbs := listeners[key];
        if IndexOf(cbs, cb.value) < 0 {
          listeners := listeners[key := cbs + [cb.value]];
        }
      }
      r := Normal(());
    }

    /** `once(id, cb)`: throws on a non-function callback, and (through `on`)
        on a bad id; otherwise registers a fresh wrapper around `cb`. */
    method Once(id: Dyn<string>, cb: Dyn<nat>) returns (r: Completion<()>)
      requires Valid()
      modifies this
      ensures Valid()
      ensures r.Thrown? <==> !(ValidName(id) && cb.Typed?)
      ensures r.Thrown? ==> listeners == old(listeners)
      ensures r.Normal? ==>
        wrappers == old(wrappers) + 1 &&
        listeners == Added(old(listeners), id.value, OnceWrapper(old(wrappers), cb.value)) &&
        (id.value in old(listeners) ==> OnceWrapper(old(wrappers), cb.value) !in old(listeners)[id.value])
    {
      if cb.WrongType? {
        return Thrown("Invalid callback");
      }
      var f := OnceWrapper(wrappers, cb.value);
      wrappers := wrappers + 1;
      r := On(id, Typed(f));
    }

    /** `off(id, cb)`: throws on an empty or non-string id or a non-function
        callback; an unknown id or an absent callback is a no-op. */
    method Off(id: Dyn<string>, cb: Dyn<Callback>) returns (r: Completion<()>)
      requires Valid()
      modifies this
      ensures Valid() && wrappers == old(wrappers)
      ensures r.Thrown? <==> !(ValidName(id) && cb.Typed?)
      ensures r.Thrown? ==> listeners == old(listeners)
      ensures r.Normal? ==> listeners == Removed(old(listeners), id.value, cb.value)
    {
      if !ValidName(id) || cb.WrongType? {
        return Thrown("Invalid params");
      }
      RemovedSpec(listeners, id.value, cb.value);
      var key := id.value;
      r := Normal(());
      if key !in listeners {
        return;
      }
      var cbs := listeners[key];
      var i := IndexOf(cbs, cb.value);
      if i < 0 {
        return;
      }
      if |cbs| < 2 {
        listeners := listeners - {key};
        return;
      }
      listeners := listeners[key := RemoveAt(cbs, i)];
    }

    /** `emit(id)`, iterating the list present at call time: every callback
        stored for `id` is invoked once, in order, and every once wrapper
        among them has unregistered itself afterwards. */
    method Emit(id: string) returns (calls: seq<nat>)
      requires Valid()
      modifies this
      ensures Valid() && wrappers == old(wrappers)
      ensures id !in old(listeners) ==> calls == [] && listeners == old(listeners)
      ensures id in old(listeners) ==>
        calls == Invoked(old(listeners)[id]) &&
        listeners == Store(old(listeners), id, Plain(old(listeners)[id]))
    {
      calls := [];
      if id !in listeners {
        return;
      }
      var snapshot := listeners[id];
      ghost var m0 := listeners;
      assert Plain(snapshot[..0]) + snapshot[0..] == snapshot;
      for i := 0 to |snapshot|
        invariant Valid() && wrappers == old(wrappers)
        invariant listeners == Store(m0, id, Plain(snapshot[..i]) + snapshot[i..])
        invariant calls == Invoked(snapshot[..i])
      {
        var c := snapshot[i];
        EmitStep(m0, id, snapshot, i);
        if c.OnceWrapper? {
          var _ := Off(Typed(id), Typed(c));
        }
        calls := calls + [Target(c)];
      }
      assert snapshot[..|snapshot|] == snapshot;
      assert Plain(snapshot[..|snapshot|]) + snapshot[|snapshot|..] == Plain(snapshot);
    }

    /** `emit(id)` exactly as written: the loop walks the live array by
        position while once wrappers splice it. */
    method EmitAsWritten(id: string) returns (calls: seq<nat>)
      requires Valid()
      modifies this
      ensures Valid() && wrappers == old(wrappers)
      ensures id !in old(listeners) ==> calls == [] && listeners == old(listeners)
      ensures id in old(listeners) ==>
        calls == LiveEmit(old(listeners)[id]) && listeners == LiveStore(old(listeners), id)
      ensures id in old(listeners) ==>
        forall w :: w in LiveRun(old(listeners)[id], 0, true) && w.OnceWrapper? ==>
          id !in listeners || w !in listeners[id]
    {
      calls := [];
      if id !in listeners {
        return;
      }
      var arr := listeners[id];
      var attached := true;
      var i := 0;
      ghost var m0 := listeners;
      ghost var visited := [];
      LiveStoreSpec(m0, id);
      while i < |arr|
        invariant Valid() && wrappers == old(wrappers)
        invariant NoDups(arr)
        invariant attached ==> |arr| > 0 && listeners == m0[id := arr]
        invariant !attached ==> listeners == m0 - {id}
        invariant visited + LiveRun(arr, i, attached) == LiveRun(m0[id], 0, true)
        invariant LiveKept(arr, i, attached) == LiveKept(m0[id], 0, true)
        invariant calls == Invoked(visited)
        decreases |arr| - i
      {
        var c := arr[i];
        LiveStep(arr, i, attached, visited);
        if c.OnceWrapper? && attached {
          arr, attached := OffMet(id, c, arr, m0);
        }
        visited := visited + [c];
        calls := calls + [Target(c)];
        i := i + 1;
      }
      assert visited == LiveRun(m0[id], 0, true);
    }

    /** The `this.off(id, c)` of `EmitAsWritten` for a wrapper `c` of the
        list `arr` still stored under `id`: the list loses `c`, or the
        entry goes when `c` was its only callback. */
    method OffMet(id: string, c: Callback, arr: seq<Callback>, ghost m0: map<string, seq<Callback>>)
      returns (next: seq<Callback>, still: bool)
      requires Valid() && listeners == m0[id := arr] && c in arr && NoDups(arr)
      modifies this
      ensures Valid() && wrappers == old(wrappers) && NoDups(next)
      ensures still <==> |arr| >= 2
      ensures next == if still then RemoveAt(arr, IndexOf(arr, c)) else arr
      ensures listeners == if still then m0[id := next] else m0 - {id}
    {
      var _ := Off(Typed(id), Typed(c));
      var k := IndexOf(arr, c);
      if |arr| < 2 {
        assert m0[id := arr] - {id} == m0 - {id};
        next, still := arr, false;
      } else {
        assert m0[id := arr][id := RemoveAt(arr, k)] == m0[id := RemoveAt(arr, k)];
        RemoveAtOfNoDups(arr, k);
        next, still := RemoveAt(arr, k), true;
      }
    }
  }

  /** One iteration of `EmitAsWritten`'s loop, on the visited callbacks
      and on the list left stored. */
  lemma LiveStep(arr: seq<Callback>, i: nat, attached: bool, visited: seq<Callback>)
    requires i < |arr|
    ensures var (next, still) := LiveNext(arr, i, attached);
      visited + LiveRun(arr, i, attached) == (visited + [arr[i]]) + LiveRun(next, i + 1, still) &&
      LiveKept(arr, i, attached) == (if attached then LiveKept(next, i + 1, still) else []) &&
      Invoked(visited + [arr[i]]) == Invoked(visited) + [Target(arr[i])]
  {
    var (next, still) := LiveNext(arr, i, attached);
    var rest := LiveRun(next, i + 1, still);
    assert LiveRun(arr, i, attached) == [arr[i]] + rest;
    assert visited + ([arr[i]] + rest) == (visited + [arr[i]]) + rest;
    var inv := Invoked(visited + [arr[i]]);
    assert |inv| == |Invoked(visited) + [Target(arr[i])]|;
  }

  /** One iteration of `Emit`'s loop, on the stored map and on the calls. */
  lemma EmitStep(m: map<string, seq<Callback>>, id: string, s: seq<Callback>, i: nat)
    requires WellFormed(m) && id in m && s == m[id] && i < |s|
    ensures var before := Store(m, id, Plain(s[..i]) + s[i..]);
      Store(m, id, Plain(s[..i + 1]) + s[i + 1..]) ==
        (if s[i].OnceWrapper? then Removed(before, id, s[i]) else before)
    ensures Invoked(s[..i + 1]) == Invoked(s[..i]) + [Target(s[i])]
  {
    assert s[..i + 1] == s[..i] + [s[i]];
    PlainAppend(s[..i], [s[i]]);
    if s[i].OnceWrapper? {
      UnregisterStep(m, id, s, i);
    } else {
      assert Plain(s[..i + 1]) + s[i + 1..] == Plain(s[..i]) + s[i..];
    }
  }

  /** The list after unregistering the wrapper at position `i` of the
      snapshot, given the wrappers before it are already gone. */
  lemma UnregisterStep(m: map<string, seq<Callback>>, id: string, s: seq<Callback>, i: nat)
    requires WellFormed(m) && id in m && s == m[id] && i < |s| && s[i].OnceWrapper?
    ensures var l := Plain(s[..i]) + s[i..];
      Removed(Store(m, id, l), id, s[i]) == Store(m, id, Plain(s[..i + 1]) + s[i + 1..])
  {
    var l := Plain(s[..i]) + s[i..];
    var rest := Plain(s[..i + 1]) + s[i + 1..];
    var c, p := s[i], |Plain(s[..i])|;
    UnregisterFound(s, i);
    assert l != [];
    var m1 := m[id := l];
    assert Store(m, id, l) == m1 && m1[id] == l && IndexOf(m1[id], c) == p;
    UpdateTwice(m, id, l, rest);
    if |l| < 2 {
      assert rest == [];
      assert Removed(m1, id, c) == m1 - {id};
    } else {
      assert rest != [] && RemoveAt(l, p) == rest;
      assert Removed(m1, id, c) == m1[id := rest];
    }
  }

  /** In that list the wrapper sits right after the plain callbacks before
      it, and removing it there leaves the list of the next step. */
  lemma UnregisterFound(s: seq<Callback>, i: nat)
    requires NoDups(s) && i < |s| && s[i].OnceWrapper?
    ensures var l := Plain(s[..i]) + s[i..];
      IndexOf(l, s[i]) == |Plain(s[..i])| &&
      RemoveAt(l, |Plain(s[..i])|) == Plain(s[..i + 1]) + s[i + 1..] &&
      |l| == |Plain(s[..i + 1]) + s[i + 1..]| + 1
  {
    var c := s[i];
    assert s == s[..i] + s[i..];
    assert c !in s[..i] by {
      forall k | 0 <= k < i ensures s[..i][k] != c {
        assert s[k] != s[i];
      }
    }
    assert c !in Plain(s[..i]);
    assert Plain(s[..i]) + s[i..] == Plain(s[..i]) + [c] + s[i + 1..];
    FirstAt(Plain(s[..i]), c, s[i + 1..]);
    PlainAppend(s[..i], [c]);
    assert s[..i + 1] == s[..i] + [c];
    assert Plain(s[..i + 1]) == Plain(s[..i]);
  }

}
