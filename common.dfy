/** Values shared by every module of the model: optional values, JavaScript
    arguments whose runtime type the code checks with `typeof`, how a call
    completes (normally or by throwing), and small sequence helpers. */
module Common {

  datatype Option<+T> = None | Some(value: T)

  /** A JavaScript argument that the code checks with `typeof`: either a
      value of the expected type, or a value of some other type. */
  datatype Dyn<+T> = Typed(value: T) | WrongType

  /** How a JavaScript function call completes. */
  datatype Completion<+T> = Normal(value: T) | Thrown(message: string)

  /** The common guard `!name || typeof name !== 'string'` lets the name through. */
  predicate ValidName(a: Dyn<string>)
  {
    a.Typed? && a.value != ""
  }

  predicate NoDups<T(==)>(s: seq<T>)
  {
    forall i, j :: 0 <= i < j < |s| ==> s[i] != s[j]
  }

  /** `Array.prototype.indexOf`: the first position of `x`, or -1. */
  function IndexOf<T(==)>(s: seq<T>, x: T): (i: int)
    ensures -1 <= i < |s|
    ensures i >= 0 ==> s[i] == x && x !in s[..i]
    ensures i < 0 <==> x !in s
  {
    if s == [] then -1
    else if s[0] == x then 0
    else
      var k := IndexOf(s[1..], x);
      assert s[1..][..if k < 0 then 0 else k] == s[1..if k < 0 then 1 else k + 1];
      if k < 0 then -1 else k + 1
  }

  /** `splice(i, 1)` on a copy. */
  function RemoveAt<T>(s: seq<T>, i: nat): (r: seq<T>)
    requires i < |s|
    ensures |r| == |s| - 1
    ensures forall x :: x in r ==> x in s
  {
    s[..i] + s[i + 1..]
  }

  /** A second update of a key overrides the first, and so does removing
      the key. */
  lemma UpdateTwice<K, V>(m: map<K, V>, k: K, a: V, b: V)
    ensures m[k := a][k := b] == m[k := b]
    ensures m[k := a] - {k} == m - {k}
  {
  }

  /** A map with the keys of `a` that agrees with it on every key but `k`
      is `a` with `k` updated. */
  lemma UpdateAt<K, V>(a: map<K, V>, b: map<K, V>, k: K)
    requires k in b && b.Keys == a.Keys
    requires forall x :: x in b && x != k ==> b[x] == a[x]
    ensures b == a[k := b[k]]
  {
  }

  /** Updating a key after removing it is updating it. */
  lemma MinusThenUpdate<K, V>(m: map<K, V>, k: K, v: V)
    ensures (m - {k})[k := v] == m[k := v]
  {
  }

  /** A map that agrees with `a` on every key but `k`, and has no other
      key, is `a` without `k`. */
  lemma MinusKey<K, V>(a: map<K, V>, b: map<K, V>, k: K)
    requires b.Keys == a.Keys - {k}
    requires forall x :: x in b ==> b[x] == a[x]
    ensures b == a - {k}
  {
  }

  /** An element that does not occur before a position is found there, and
      removing it there leaves the rest in order. */
  lemma FirstAt<T>(pre: seq<T>, x: T, post: seq<T>)
    requires x !in pre
    ensures IndexOf(pre + [x] + post, x) == |pre|
    ensures RemoveAt(pre + [x] + post, |pre|) == pre + post
  {
    var s := pre + [x] + post;
    assert s[|pre|] == x;
    assert s[..|pre|] == pre && s[|pre| + 1..] == post;
  }

  /** The sequence with every occurrence of `x` dropped, order kept. */
  function Without<T(==)>(s: seq<T>, x: T): (r: seq<T>)
    ensures forall i :: 0 <= i < |r| ==> r[i] in s && r[i] != x
    ensures forall i :: 0 <= i < |s| && s[i] != x ==> s[i] in r
    ensures NoDups(s) ==> NoDups(r)
    ensures x !in s ==> r == s
  {
    if s == [] then []
    else
      var rest := Without(s[1..], x);
      if s[0] == x then rest else [s[0]] + rest
  }

  lemma RemoveAtOfNoDups<T>(s: seq<T>, i: nat)
    requires NoDups(s) && i < |s|
    ensures NoDups(RemoveAt(s, i))
    ensures forall y :: y in RemoveAt(s, i) <==> y in s && y != s[i]
  {
    var r := RemoveAt(s, i);
    forall y | y in s && y != s[i] ensures y in r {
      var k :| 0 <= k < |s| && s[k] == y;
      if k < i { assert r[k] == y; } else { assert r[k - 1] == y; }
    }
  }
}
