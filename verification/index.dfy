/** Keyed lookup tables built from lists, the way the source fills a Go map
    by ranging over a slice: a later element with the same key overwrites
    an earlier one. */
module Index {

  /** The set of keys occurring in `xs`. */
  function KeySet<K, T>(xs: seq<T>, key: T -> K): set<K> {
    set i | 0 <= i < |xs| :: key(xs[i])
  }

  /** The position of the last element of `xs` whose key is `k`, or -1
      when there is none. */
  function LastIndex<K(==), T>(xs: seq<T>, key: T -> K, k: K): (i: int)
    ensures -1 <= i < |xs|
    ensures i == -1 <==> k !in KeySet(xs, key)
    ensures i >= 0 ==> key(xs[i]) == k
    ensures forall j | i < j < |xs| :: key(xs[j]) != k
    decreases |xs|
  {
    if xs == [] then -1
    else if key(xs[|xs| - 1]) == k then |xs| - 1
    else
      var i := LastIndex(xs[..|xs| - 1], key, k);
      assert KeySet(xs, key) == KeySet(xs[..|xs| - 1], key) + {key(xs[|xs| - 1])} by {
        assert xs == xs[..|xs| - 1] + [xs[|xs| - 1]];
      }
      i
  }

  /** The table a `for _, x := range xs { m[key(x)] = x }` loop builds:
      every key of `xs`, each mapped to the last element carrying it. */
  function IndexBy<K(==), T>(xs: seq<T>, key: T -> K): (m: map<K, T>)
    ensures m.Keys == KeySet(xs, key)
    ensures forall k | k in m :: key(m[k]) == k
    ensures forall k | k in m :: m[k] == xs[LastIndex(xs, key, k)]
    decreases |xs|
  {
    if xs == [] then map[]
    else
      var m := IndexBy(xs[..|xs| - 1], key)[key(xs[|xs| - 1]) := xs[|xs| - 1]];
      assert KeySet(xs, key) == KeySet(xs[..|xs| - 1], key) + {key(xs[|xs| - 1])} by {
        assert xs == xs[..|xs| - 1] + [xs[|xs| - 1]];
      }
      m
  }

  /** The value of `f` at each element, in order. */
  function Project<T, U>(xs: seq<T>, f: T -> U): (r: seq<U>)
    ensures |r| == |xs|
    ensures forall i | 0 <= i < |xs| :: r[i] == f(xs[i])
  {
    seq(|xs|, i requires 0 <= i < |xs| => f(xs[i]))
  }

  /** The table entries for `ks`, in the order of `ks`. */
  function Lookup<K(==), V>(ks: seq<K>, m: map<K, V>): (r: seq<V>)
    requires forall k | k in ks :: k in m
    ensures |r| == |ks|
    ensures forall i | 0 <= i < |ks| :: r[i] == m[ks[i]]
  {
    seq(|ks|, i requires 0 <= i < |ks| => m[ks[i]])
  }

  /** Projecting elements whose keys are, position by position, `ks`
      yields `ks`. */
  lemma ProjectIs<T, U>(xs: seq<T>, f: T -> U, ks: seq<U>)
    requires |xs| == |ks|
    requires forall i | 0 <= i < |xs| :: f(xs[i]) == ks[i]
    ensures Project(xs, f) == ks
  {
  }

  /** `x` is the last element of `xs` carrying its key. */
  predicate IsLast<K(==), T(==)>(xs: seq<T>, key: T -> K, x: T) {
    var i := LastIndex(xs, key, key(x));
    i >= 0 && xs[i] == x
  }

  /** Looking keys of `xs` up in the table built from `xs` gives, in order,
      elements carrying those keys, each the last of its key in `xs`. */
  lemma LookupIndexed<K, T>(xs: seq<T>, key: T -> K, ks: seq<K>)
    requires forall k | k in ks :: k in KeySet(xs, key)
    ensures Project(Lookup(ks, IndexBy(xs, key)), key) == ks
    ensures forall x | x in Lookup(ks, IndexBy(xs, key)) :: IsLast(xs, key, x)
  {
    var m := IndexBy(xs, key);
    var rs := Lookup(ks, m);
    ProjectIs(rs, key, ks);
    forall x | x in rs
      ensures IsLast(xs, key, x)
    {
      var i :| 0 <= i < |rs| && rs[i] == x;
      assert ks[i] in m;
    }
  }

  /** The entry a table built from `xs` holds for `k` carries `k` and is
      the last element of `xs` that does. */
  lemma IndexedIsLast<K, T>(xs: seq<T>, key: T -> K, k: K)
    requires k in IndexBy(xs, key)
    ensures key(IndexBy(xs, key)[k]) == k
    ensures IsLast(xs, key, IndexBy(xs, key)[k])
  {
  }

  /** Two maps that agree off `{k}`, then off `ks`, agree off both. */
  lemma MinusStep<K, V>(m0: map<K, V>, m1: map<K, V>, m2: map<K, V>, k: K, ks: set<K>)
    requires m1 - {k} == m0 - {k}
    requires m2 - ks == m1 - ks
    ensures m2 - ({k} + ks) == m0 - ({k} + ks)
  {
    assert m2 - ({k} + ks) == (m2 - ks) - {k};
    assert m0 - ({k} + ks) == (m0 - {k}) - ks;
    assert (m1 - ks) - {k} == (m1 - {k}) - ks;
  }

  /** Maps that agree off `ks` agree on every key outside it. */
  lemma MinusKeeps<K, V>(a: map<K, V>, b: map<K, V>, ks: set<K>, k: K)
    requires a - ks == b - ks && k !in ks && k in b
    ensures k in a && a[k] == b[k]
  {
    assert k in b - ks;
  }

  /** The keys of a non-empty list are its head's key and its tail's. */
  lemma KeySetCons<K, T>(xs: seq<T>, key: T -> K)
    requires xs != []
    ensures KeySet(xs, key) == {key(xs[0])} + KeySet(xs[1..], key)
  {
    assert xs == [xs[0]] + xs[1..];
  }

  /** The keys of `xs` are the elements of its projection. */
  lemma KeySetIsProject<K, T>(xs: seq<T>, key: T -> K)
    ensures forall k :: k in KeySet(xs, key) <==> k in Project(xs, key)
  {
    forall k | k in KeySet(xs, key) ensures k in Project(xs, key) {
      var i :| 0 <= i < |xs| && key(xs[i]) == k;
      assert Project(xs, key)[i] == k;
    }
  }

  /** A set holding exactly the elements of the projection of `xs` is the
      key set of `xs`. */
  lemma KeySetFromProject<K, T>(xs: seq<T>, key: T -> K, s: set<K>)
    requires forall k: K :: k in Project(xs, key) <==> k in s
    ensures KeySet(xs, key) == s
  {
    KeySetIsProject(xs, key);
    forall k: K | k in KeySet(xs, key) ensures k in s {
      var i :| 0 <= i < |xs| && key(xs[i]) == k;
      ProjectedKey(xs, key, s, i);
    }
    forall k: K | k in s ensures k in KeySet(xs, key) {
      assert k in Project(xs, key);
    }
  }

  /** The key of each element lies in any set equal to the projection. */
  lemma ProjectedKey<K, T>(xs: seq<T>, key: T -> K, s: set<K>, i: int)
    requires forall k: K :: k in Project(xs, key) <==> k in s
    requires 0 <= i < |xs|
    ensures key(xs[i]) in s
  {
    var k: K := key(xs[i]);
    assert Project(xs, key)[i] == k;
    KeyInSet(xs, key, s, k);
  }

  /** A key of the projection lies in any set equal to it (stated for a
      key of type `K`, so that the solver knows its type). */
  lemma KeyInSet<K, T>(xs: seq<T>, key: T -> K, s: set<K>, k: K)
    requires forall k: K :: k in Project(xs, key) <==> k in s
    requires k in Project(xs, key)
    ensures k in s
  {
  }

  /** Two keys that agree on every element give the same key set. */
  lemma KeySetSameKey<K, T>(xs: seq<T>, k1: T -> K, k2: T -> K)
    requires forall x | x in xs :: k1(x) == k2(x)
    ensures KeySet(xs, k1) == KeySet(xs, k2)
  {
    assert forall i | 0 <= i < |xs| :: xs[i] in xs;
  }

  /** If every element's key lies in `s`, so does the key set. */
  lemma KeySetWithin<K, T>(xs: seq<T>, key: T -> K, s: set<K>)
    requires forall x | x in xs :: key(x) in s
    ensures KeySet(xs, key) <= s
  {
    assert forall i | 0 <= i < |xs| :: xs[i] in xs;
  }

  /** Every element's key is in the key set. */
  lemma InKeySet<K, T>(xs: seq<T>, key: T -> K)
    ensures forall x | x in xs :: key(x) in KeySet(xs, key)
  {
    forall x | x in xs ensures key(x) in KeySet(xs, key) {
      var i :| 0 <= i < |xs| && xs[i] == x;
    }
  }

  /** A sequence has no keys exactly when it is empty. */
  lemma EmptyKeySet<K, T>(xs: seq<T>, key: T -> K)
    ensures xs == [] <==> KeySet(xs, key) == {}
  {
    if xs != [] {
      assert key(xs[0]) in KeySet(xs, key);
    }
  }

  /** Removing nothing from `a` leaves `a`. */
  lemma MinusNothing<T>(a: set<T>, b: set<T>)
    requires b == {}
    ensures a - b == a
  {
  }

  /** Removing nothing before adding `c`, or before a disjointness test. */
  lemma DropNone<T>(a: set<T>, b: set<T>, c: set<T>)
    requires b == {}
    ensures (a - b) + c == a + c
    ensures (c - b) !! a ==> c !! a
  {
  }

  /** Removing all of `a` before adding `c` leaves `c`. */
  lemma DropAll<T>(a: set<T>, b: set<T>, c: set<T>)
    requires a == b
    ensures (a - b) + c == c
  {
  }

  /** Maps with the same keys and the same value at each key are equal. */
  lemma MapsAgree<K, V>(a: map<K, V>, b: map<K, V>)
    requires a.Keys == b.Keys
    requires forall k | k in a :: k in b && a[k] == b[k]
    ensures a == b
  {
  }

  /** A map without keys is the empty map. */
  lemma NoKeys<K, V>(m: map<K, V>)
    requires m.Keys == {}
    ensures m == map[]
  {
  }

  /** Concatenation is associative. */
  lemma AppendAssoc<T>(a: seq<T>, b: seq<T>, c: seq<T>)
    ensures (a + b) + c == a + (b + c)
  {
  }

  /** The elements after `a` in `c` are those after `a` in its prefix `b`,
      then those after `b`. */
  lemma PrefixSplit<T>(a: seq<T>, b: seq<T>, c: seq<T>)
    requires |a| <= |b| && b <= c
    ensures c[|a|..] == b[|a|..] + c[|b|..]
  {
  }
}
