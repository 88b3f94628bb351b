/** Sequence vocabulary shared by the log, the cache and the cluster models. */
module Sequences {
  import opened Binary

  function Last<T>(s: seq<T>): T
    requires s != []
  {
    s[|s| - 1]
  }

  ghost function Elements<T>(s: seq<T>): set<T> {
    set x | x in s
  }

  ghost predicate Distinct<T>(s: seq<T>) {
    forall i, j :: 0 <= i < j < |s| ==> s[i] != s[j]
  }

  ghost predicate IsSuffix<T>(s: seq<T>, t: seq<T>) {
    |s| <= |t| && s == t[|t| - |s|..]
  }

  /** The last `n` elements, or all of them when there are fewer. */
  function Tail<T>(s: seq<T>, n: nat): seq<T> {
    if |s| <= n then s else s[|s| - n..]
  }

  /** A bounded queue that drops its oldest element to admit a new one. */
  function Push<T>(ring: seq<T>, cap: nat, x: T): seq<T>
    requires cap > 0
  {
    (if |ring| == cap then ring[1..] else ring) + [x]
  }

  lemma TailPush<T>(s: seq<T>, cap: nat, x: T)
    requires cap > 0
    ensures Tail(s + [x], cap) == Push(Tail(s, cap), cap, x)
  {
    if |s| >= cap {
      assert (s + [x])[|s| + 1 - cap..] == s[|s| + 1 - cap..] + [x];
      assert Tail(s, cap)[1..] == s[|s| + 1 - cap..];
    }
  }

  function Flatten<T>(ss: seq<seq<T>>): seq<T> {
    if ss == [] then [] else Flatten(ss[..|ss| - 1]) + Last(ss)
  }

  lemma {:induction false} FlattenConcat<T>(a: seq<seq<T>>, b: seq<seq<T>>)
    ensures Flatten(a + b) == Flatten(a) + Flatten(b)
  {
    if b == [] {
      assert a + b == a;
    } else {
      FlattenConcat(a, b[..|b| - 1]);
      assert (a + b)[..|a + b| - 1] == a + b[..|b| - 1];
      assert Last(a + b) == Last(b);
    }
  }

  lemma FlattenAppend<T>(a: seq<seq<T>>, x: seq<T>)
    ensures Flatten(a + [x]) == Flatten(a) + x
  {
    assert (a + [x])[..|a|] == a;
  }

  lemma FlattenSplit<T>(ss: seq<seq<T>>, j: nat)
    requires j <= |ss|
    ensures Flatten(ss) == Flatten(ss[..j]) + Flatten(ss[j..])
  {
    var a, b := ss[..j], ss[j..];
    assert a + b == ss;
    FlattenConcat(a, b);
  }

  lemma FlattenNonempty<T>(ss: seq<seq<T>>)
    requires ss != [] && Last(ss) != []
    ensures Flatten(ss) != []
  {
  }

  lemma ConcatAssoc<T>(a: seq<T>, b: seq<T>, c: seq<T>)
    ensures (a + b) + c == a + (b + c)
  {
  }

  lemma SnocSplit<T>(a: seq<T>, b: seq<T>)
    requires b != []
    ensures b == b[..|b| - 1] + [Last(b)] && a + b == (a + b[..|b| - 1]) + [Last(b)]
  {
  }

  // ----- finite sets of numbers in ascending order

  ghost predicate Ascending(s: seq<nat>) {
    forall i, j :: 0 <= i < j < |s| ==> s[i] < s[j]
  }

  function MaxOf(s: set<nat>): (m: nat)
    requires s != {}
    ensures m in s
    ensures forall x :: x in s ==> x <= m
  {
    HasMax(s);
    var m :| m in s && forall x :: x in s ==> x <= m;
    m
  }

  lemma HasMax(s: set<nat>)
    requires s != {}
    ensures exists m :: m in s && forall x :: x in s ==> x <= m
  {
    var x :| x in s;
    if s - {x} == {} {
      assert s == {x};
    } else {
      HasMax(s - {x});
      var y :| y in s - {x} && forall z :: z in s - {x} ==> z <= y;
      var m := Max(x, y);
      assert forall z :: z in s ==> z == x || z in s - {x};
      assert m in s;
    }
  }

  lemma RemoveTwice<K, V>(m: map<K, V>, a: set<K>, b: set<K>)
    requires a <= b
    ensures (m - a) - b == m - b
  {
  }

  /** The elements of `s` in ascending order: what sorting a directory listing by key yields. */
  function SortedKeys(s: set<nat>): seq<nat> {
    if s == {} then [] else
      var m := MaxOf(s);
      SortedKeys(s - {m}) + [m]
  }

  lemma {:induction false} SortedKeysSize(s: set<nat>)
    ensures |SortedKeys(s)| == |s|
  {
    if s != {} {
      SortedKeysSize(s - {MaxOf(s)});
    }
  }

  lemma {:induction false} SortedKeysMembers(s: set<nat>, x: nat)
    ensures x in SortedKeys(s) <==> x in s
  {
    if s != {} {
      SortedKeysMembers(s - {MaxOf(s)}, x);
    }
  }

  lemma {:induction false} SortedKeysAscend(s: set<nat>)
    ensures Ascending(SortedKeys(s))
  {
    if s != {} {
      var m := MaxOf(s);
      SortedKeysAscend(s - {m});
      var ks := SortedKeys(s - {m});
      forall i | 0 <= i < |ks|
        ensures ks[i] < m
      {
        SortedKeysMembers(s - {m}, ks[i]);
      }
    }
  }
}
