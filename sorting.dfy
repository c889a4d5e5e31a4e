/**
 * Python's sorted(s, key=key) on integer keys: a stable sort, written here as
 * insertion sort, with the properties that determine its result.
 */
module Sorting {
  import opened Wrappers

  /**
   * The index of the first element, in input order, that fails ok: sorted()
   * computes every key before comparing any, so the first failing key raises.
   */
  function FirstFailing<T>(s: seq<T>, ok: T -> bool): (r: Option<nat>)
    ensures r.None? <==> forall i :: 0 <= i < |s| ==> ok(s[i])
    ensures r.Some? ==> r.value < |s| && !ok(s[r.value]) && forall i :: 0 <= i < r.value ==> ok(s[i])
  {
    if s == [] then None
    else if !ok(s[0]) then Some(0)
    else match FirstFailing(s[1..], ok)
      case None => None
      case Some(i) => Some(i + 1)
  }

  ghost predicate SortedBy<T>(s: seq<T>, key: T -> int) {
    forall i, j :: 0 <= i < j < |s| ==> key(s[i]) <= key(s[j])
  }

  /** The elements of s whose key is k, in the order s has them. */
  function WithKey<T>(s: seq<T>, key: T -> int, k: int): seq<T> {
    if s == [] then []
    else (if key(s[0]) == k then [s[0]] else []) + WithKey(s[1..], key, k)
  }

  /** WithKey keeps exactly the elements of key k. */
  lemma {:induction false} WithKeyMembers<T>(s: seq<T>, key: T -> int, k: int)
    ensures forall x :: x in WithKey(s, key, k) ==> x in s && key(x) == k
    ensures forall i :: 0 <= i < |s| && key(s[i]) == k ==> s[i] in WithKey(s, key, k)
  {
    if s != [] {
      WithKeyMembers(s[1..], key, k);
      assert s == [s[0]] + s[1..];
    }
  }

  /** WithKey of a sequence with a given first element. */
  lemma WithKeyCons<T>(a: T, t: seq<T>, key: T -> int, k: int)
    ensures WithKey([a] + t, key, k) == (if key(a) == k then [a] else []) + WithKey(t, key, k)
  {
    assert ([a] + t)[1..] == t;
  }

  /** An element no larger than the head of a sorted sequence can go in front of it. */
  lemma SortedCons<T>(a: T, t: seq<T>, key: T -> int)
    requires SortedBy(t, key)
    requires t == [] || key(a) <= key(t[0])
    ensures SortedBy([a] + t, key)
  {
    var r := [a] + t;
    forall i, j | 0 <= i < j < |r|
      ensures key(r[i]) <= key(r[j])
    {
      if i == 0 {
        assert r[j] == t[j - 1];
        assert key(t[0]) <= key(t[j - 1]);
      } else {
        assert r[i] == t[i - 1] && r[j] == t[j - 1];
      }
    }
  }

  /**
   * Inserts x in front of the first element of s whose key is at least x's:
   * x came before every element of s in the input, so it stays before equal keys.
   */
  function Insert<T>(x: T, s: seq<T>, key: T -> int): (r: seq<T>)
    requires SortedBy(s, key)
    ensures SortedBy(r, key)
    ensures multiset(r) == multiset(s) + multiset{x}
    ensures |r| == |s| + 1 && (r[0] == x || (s != [] && r[0] == s[0]))
  {
    if s == [] || key(x) <= key(s[0]) then
      SortedCons(x, s, key);
      [x] + s
    else
      var t := Insert(x, s[1..], key);
      assert key(s[0]) <= key(t[0]) by {
        if t[0] != x {
          assert t[0] == s[1];
        }
      }
      SortedCons(s[0], t, key);
      assert s == [s[0]] + s[1..];
      [s[0]] + t
  }

  /** Inserting x adds it in front of the elements of its own key. */
  lemma {:induction false} InsertWithKey<T>(x: T, s: seq<T>, key: T -> int, k: int)
    requires SortedBy(s, key)
    ensures WithKey(Insert(x, s, key), key, k) == (if key(x) == k then [x] else []) + WithKey(s, key, k)
  {
    if s == [] || key(x) <= key(s[0]) {
      WithKeyCons(x, s, key, k);
    } else {
      var t := Insert(x, s[1..], key);
      InsertWithKey(x, s[1..], key, k);
      WithKeyCons(s[0], t, key, k);
      WithKeyCons(s[0], s[1..], key, k);
      assert s == [s[0]] + s[1..];
      var rest := WithKey(s[1..], key, k);
      if key(s[0]) == k {
        assert key(x) != k;
      } else if key(x) == k {
        assert WithKey(t, key, k) == [x] + rest;
      }
    }
  }

  /** sorted(s, key=key). */
  function StableSort<T>(s: seq<T>, key: T -> int): (r: seq<T>)
    ensures SortedBy(r, key)
    ensures multiset(r) == multiset(s)
  {
    if s == [] then []
    else
      assert s == [s[0]] + s[1..];
      Insert(s[0], StableSort(s[1..], key), key)
  }

  /** The sort is stable: the elements of each key keep their input order. */
  lemma {:induction false} StableSortWithKey<T>(s: seq<T>, key: T -> int, k: int)
    ensures WithKey(StableSort(s, key), key, k) == WithKey(s, key, k)
  {
    if s != [] {
      StableSortWithKey(s[1..], key, k);
      InsertWithKey(s[0], StableSort(s[1..], key), key, k);
    }
  }

  lemma NonEmptyHasOwnKey<T>(s: seq<T>, key: T -> int)
    requires s != []
    ensures WithKey(s, key, key(s[0])) != []
  {
  }

  /** Two key-sorted sequences that agree on the elements of every key are equal. */
  lemma {:induction false} SortedIsUnique<T>(a: seq<T>, b: seq<T>, key: T -> int)
    requires SortedBy(a, key) && SortedBy(b, key)
    requires forall k :: WithKey(a, key, k) == WithKey(b, key, k)
    ensures a == b
    decreases |a|
  {
    if a == [] || b == [] {
      if a != [] { NonEmptyHasOwnKey(a, key); }
      if b != [] { NonEmptyHasOwnKey(b, key); }
    } else {
      var ka, kb := key(a[0]), key(b[0]);
      assert WithKey(a, key, ka) == WithKey(b, key, ka);
      assert WithKey(a, key, kb) == WithKey(b, key, kb);
      SameHead(a, b, key);
      forall k
        ensures WithKey(a[1..], key, k) == WithKey(b[1..], key, k)
      {
        TailAgrees(a, b, key, k);
      }
      SortedIsUnique(a[1..], b[1..], key);
      assert a == [a[0]] + a[1..] && b == [b[0]] + b[1..];
    }
  }

  /** The smallest key comes first, so two such sequences start with the same element. */
  lemma SameHead<T>(a: seq<T>, b: seq<T>, key: T -> int)
    requires a != [] && b != []
    requires SortedBy(a, key) && SortedBy(b, key)
    requires WithKey(a, key, key(a[0])) == WithKey(b, key, key(a[0]))
    requires WithKey(a, key, key(b[0])) == WithKey(b, key, key(b[0]))
    ensures a[0] == b[0]
  {
    var ka, kb := key(a[0]), key(b[0]);
    WithKeyMembers(a, key, kb);
    WithKeyMembers(b, key, ka);
    assert b[0] in WithKey(b, key, kb);
    assert a[0] in WithKey(a, key, ka);
    assert ka <= kb by {
      var i :| 0 <= i < |a| && a[i] == b[0];
    }
    assert kb <= ka by {
      var j :| 0 <= j < |b| && b[j] == a[0];
    }
    assert WithKey(a, key, ka)[0] == a[0];
    assert WithKey(b, key, ka)[0] == b[0];
  }

  /** Removing an equal head leaves tails that agree on the key. */
  lemma TailAgrees<T>(a: seq<T>, b: seq<T>, key: T -> int, k: int)
    requires a != [] && b != [] && a[0] == b[0]
    requires WithKey(a, key, k) == WithKey(b, key, k)
    ensures WithKey(a[1..], key, k) == WithKey(b[1..], key, k)
  {
    var u, v := WithKey(a[1..], key, k), WithKey(b[1..], key, k);
    var h: seq<T> := if key(a[0]) == k then [a[0]] else [];
    assert WithKey(a, key, k) == h + u;
    assert WithKey(b, key, k) == h + v;
    assert (h + u)[|h|..] == u && (h + v)[|h|..] == v;
  }

  /** The result of the sort depends on the input only through the order of equal keys. */
  lemma SortDependsOnlyOnTies<T>(xs: seq<T>, ys: seq<T>, key: T -> int)
    requires forall k :: WithKey(xs, key, k) == WithKey(ys, key, k)
    ensures StableSort(xs, key) == StableSort(ys, key)
  {
    forall k
      ensures WithKey(StableSort(xs, key), key, k) == WithKey(StableSort(ys, key), key, k)
    {
      StableSortWithKey(xs, key, k);
      StableSortWithKey(ys, key, k);
    }
    SortedIsUnique(StableSort(xs, key), StableSort(ys, key), key);
  }

  ghost predicate DistinctKeys<T>(s: seq<T>, key: T -> int) {
    forall i, j :: 0 <= i < j < |s| ==> key(s[i]) != key(s[j])
  }

  /** A position holding an element of key k, when there is one. */
  lemma {:induction false} IndexWithKey<T>(s: seq<T>, key: T -> int, k: int) returns (i: nat)
    requires WithKey(s, key, k) != []
    ensures i < |s| && key(s[i]) == k
  {
    if key(s[0]) == k {
      i := 0;
    } else {
      var j := IndexWithKey(s[1..], key, k);
      i := j + 1;
    }
  }

  /** With distinct keys, every key selects at most one element. */
  lemma {:induction false} WithKeyOfDistinct<T>(s: seq<T>, key: T -> int, k: int)
    requires DistinctKeys(s, key)
    ensures |WithKey(s, key, k)| <= 1
  {
    if s != [] {
      WithKeyOfDistinct(s[1..], key, k);
      WithKeyMembers(s[1..], key, k);
      if key(s[0]) == k && WithKey(s[1..], key, k) != [] {
        var i := IndexWithKey(s[1..], key, k);
      }
    }
  }

  /** With distinct keys, permuting the input does not change the sorted result. */
  lemma SortIgnoresPermutation<T>(xs: seq<T>, ys: seq<T>, key: T -> int)
    requires multiset(xs) == multiset(ys)
    requires DistinctKeys(xs, key) && DistinctKeys(ys, key)
    ensures StableSort(xs, key) == StableSort(ys, key)
  {
    forall k
      ensures WithKey(xs, key, k) == WithKey(ys, key, k)
    {
      SameWithKey(xs, ys, key, k);
    }
    SortDependsOnlyOnTies(xs, ys, key);
  }

  /** With distinct keys, a permutation selects the same element for every key. */
  lemma SameWithKey<T>(xs: seq<T>, ys: seq<T>, key: T -> int, k: int)
    requires multiset(xs) == multiset(ys)
    requires DistinctKeys(xs, key) && DistinctKeys(ys, key)
    ensures WithKey(xs, key, k) == WithKey(ys, key, k)
  {
    WithKeyOfDistinct(xs, key, k);
    WithKeyOfDistinct(ys, key, k);
    ContainedWithKey(xs, ys, key, k);
    ContainedWithKey(ys, xs, key, k);
    var u, v := WithKey(xs, key, k), WithKey(ys, key, k);
    if u != [] {
      assert u[0] in u;
    }
    if v != [] {
      assert v[0] in v;
    }
  }

  /** A permutation has the same elements of every key. */
  lemma ContainedWithKey<T>(xs: seq<T>, ys: seq<T>, key: T -> int, k: int)
    requires multiset(xs) == multiset(ys)
    ensures forall x :: x in WithKey(xs, key, k) ==> x in WithKey(ys, key, k)
  {
    WithKeyMembers(xs, key, k);
    WithKeyMembers(ys, key, k);
    forall x | x in WithKey(xs, key, k)
      ensures x in WithKey(ys, key, k)
    {
      assert x in multiset(ys);
      var j :| 0 <= j < |ys| && ys[j] == x;
    }
  }

  /** Two elements with equal keys keep their input order. */
  lemma TiesKeepInputOrder<T>(x: T, y: T, key: T -> int)
    requires key(x) == key(y)
    ensures StableSort([x, y], key) == [x, y]
  {
    var s := [x, y];
    assert s[1..] == [y] && [y][1..] == [];
    assert StableSort([y], key) == [y];
    assert Insert(x, [y], key) == [x, y];
  }
}
