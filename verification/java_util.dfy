/**
 * The parts of java.util the core relies on, as values.
 *
 * A Java `Map` is modelled as an association list: a sequence of
 * key/value pairs whose order is the map's iteration order. `Put` updates
 * a key where it stands and appends a new key at the end, which is how a
 * `LinkedHashMap` behaves; for a `HashMap` it fixes one of the iteration
 * orders the library is free to choose, so that tallies and "first two
 * entries" picks are deterministic.
 */
module JavaUtil {

  datatype Option<+T> = None | Some(value: T)

  /** The keys of an association list, as a set. */
  function KeySet<K, V>(m: seq<(K, V)>): set<K>
  {
    set i | 0 <= i < |m| :: m[i].0
  }

  /** The keys of an association list, in iteration order. */
  function KeyList<K, V>(m: seq<(K, V)>): seq<K>
  {
    seq(|m|, i requires 0 <= i < |m| => m[i].0)
  }

  /** The values of an association list, in iteration order. */
  function Values<K, V>(m: seq<(K, V)>): seq<V>
  {
    seq(|m|, i requires 0 <= i < |m| => m[i].1)
  }

  /** What every Java map satisfies: no key occurs twice. */
  predicate DistinctKeys<K(==), V>(m: seq<(K, V)>)
  {
    forall i, j :: 0 <= i < j < |m| ==> m[i].0 != m[j].0
  }

  /** The mapping an association list stands for; the first entry of a key wins. */
  function ToMap<K(==), V>(m: seq<(K, V)>): (r: map<K, V>)
    ensures r.Keys == KeySet(m)
  {
    if m == [] then map[] else ToMap(m[1..])[m[0].0 := m[0].1]
  }

  /** `Map.put`: overwrite the value of a present key in place, or append a new key. */
  function Put<K(==), V>(m: seq<(K, V)>, k: K, v: V): seq<(K, V)>
  {
    if m == [] then [(k, v)]
    else if m[0].0 == k then [(k, v)] + m[1..]
    else [m[0]] + Put(m[1..], k, v)
  }

  lemma KeySetCons<K, V>(m: seq<(K, V)>)
    requires m != []
    ensures KeySet(m) == {m[0].0} + KeySet(m[1..])
  {
    forall x | x in KeySet(m) ensures x in {m[0].0} + KeySet(m[1..]) {
      var i :| 0 <= i < |m| && m[i].0 == x;
      if i > 0 { assert m[1..][i - 1] == m[i]; }
    }
    forall x | x in KeySet(m[1..]) ensures x in KeySet(m) {
      var i :| 0 <= i < |m[1..]| && m[1..][i].0 == x;
      assert m[i + 1] == m[1..][i];
    }
  }

  /** A put is a map update. */
  lemma {:induction false} PutToMap<K, V>(m: seq<(K, V)>, k: K, v: V)
    ensures ToMap(Put(m, k, v)) == ToMap(m)[k := v]
  {
    if m != [] && m[0].0 != k {
      PutToMap(m[1..], k, v);
      assert Put(m, k, v)[1..] == Put(m[1..], k, v);
    }
  }

  /** A put of a new key appends it; a put of a present key keeps the key order. */
  lemma {:induction false} PutOrder<K, V>(m: seq<(K, V)>, k: K, v: V)
    ensures k in KeySet(m) ==> KeyList(Put(m, k, v)) == KeyList(m)
    ensures k !in KeySet(m) ==> Put(m, k, v) == m + [(k, v)]
  {
    if m == [] {
    } else if m[0].0 == k {
      assert KeyList(Put(m, k, v)) == KeyList(m);
    } else {
      var rest := Put(m[1..], k, v);
      PutOrder(m[1..], k, v);
      KeySetCons(m);
      if k in KeySet(m) {
        assert KeyList([m[0]] + rest) == [m[0].0] + KeyList(rest);
        assert KeyList(m) == [m[0].0] + KeyList(m[1..]);
      } else {
        assert [m[0]] + (m[1..] + [(k, v)]) == m + [(k, v)];
      }
    }
  }

  /** A put keeps the keys distinct. */
  lemma {:induction false} PutDistinct<K, V>(m: seq<(K, V)>, k: K, v: V)
    requires DistinctKeys(m)
    ensures KeySet(Put(m, k, v)) == KeySet(m) + {k}
    ensures DistinctKeys(Put(m, k, v))
  {
    var r := Put(m, k, v);
    if m == [] {
      assert KeySet(r) == {k} by { KeySetCons(r); }
    } else if m[0].0 == k {
      KeySetCons(m);
      KeySetCons(r);
      assert r[1..] == m[1..];
      forall i, j | 0 <= i < j < |r| ensures r[i].0 != r[j].0 {
        assert r[j] == m[j];
        if i > 0 { assert r[i] == m[i]; }
      }
    } else {
      var rest := Put(m[1..], k, v);
      PutDistinct(m[1..], k, v);
      assert r[1..] == rest;
      KeySetCons(m);
      KeySetCons(r);
      assert m[0].0 !in KeySet(m[1..]) by {
        forall i | 0 <= i < |m[1..]| ensures m[1..][i].0 != m[0].0 {
          assert m[1..][i] == m[i + 1];
        }
      }
      forall i, j | 0 <= i < j < |r| ensures r[i].0 != r[j].0 {
        if i == 0 {
          assert r[j] == rest[j - 1];
          assert rest[j - 1].0 in KeySet(rest);
        } else {
          assert r[i] == rest[i - 1] && r[j] == rest[j - 1];
        }
      }
    }
  }

  /** `Map.get` with a default for an absent key (`getOrDefault`). */
  function GetOr<K(==), V>(m: seq<(K, V)>, k: K, default: V): V
  {
    if k in ToMap(m) then ToMap(m)[k] else default
  }

  /** Number of occurrences of `x` in `s`. */
  function Count<T(==)>(s: seq<T>, x: T): (n: nat)
    ensures n <= |s|
  {
    if s == [] then 0 else Count(s[..|s| - 1], x) + (if s[|s| - 1] == x then 1 else 0)
  }

  /** Java's `List.lastIndexOf`: the last position of `x` in `s`, or -1. */
  function LastIndexOf<T(==)>(s: seq<T>, x: T): (i: int)
    ensures -1 <= i < |s|
    ensures i == -1 <==> x !in s
    ensures i >= 0 ==> s[i] == x && forall j :: i < j < |s| ==> s[j] != x
  {
    if s == [] then -1
    else if s[|s| - 1] == x then |s| - 1
    else LastIndexOf(s[..|s| - 1], x)
  }

  /** A boolean sequence splits into its true and its false entries. */
  lemma {:induction false} CountBoolSplit(s: seq<bool>)
    ensures Count(s, true) + Count(s, false) == |s|
  {
    if s != [] {
      CountBoolSplit(s[..|s| - 1]);
      if s[|s| - 1] {
        assert Count(s, true) == Count(s[..|s| - 1], true) + 1;
      } else {
        assert Count(s, false) == Count(s[..|s| - 1], false) + 1;
      }
    }
  }

  /** Counting over a prefix one element longer. */
  lemma CountSnoc<T>(s: seq<T>, i: nat, x: T)
    requires i < |s|
    ensures Count(s[..i + 1], x) == Count(s[..i], x) + (if s[i] == x then 1 else 0)
  {
    assert s[..i + 1][..i] == s[..i];
  }

  lemma DistinctPrefix<K, V>(m: seq<(K, V)>, n: nat)
    requires DistinctKeys(m) && n <= |m|
    ensures DistinctKeys(m[..n]) && DistinctKeys(m[n..])
  {
    forall i, j | 0 <= i < j < |m[n..]| ensures m[n..][i].0 != m[n..][j].0 {
      assert m[n..][i] == m[n + i] && m[n..][j] == m[n + j];
    }
  }

  /** In a map with distinct keys, each entry's value is what the key maps to. */
  lemma {:induction false} ToMapAt<K, V>(m: seq<(K, V)>, j: nat)
    requires DistinctKeys(m) && j < |m|
    ensures m[j].0 in ToMap(m) && ToMap(m)[m[j].0] == m[j].1
  {
    if j > 0 {
      DistinctPrefix(m, 1);
      ToMapAt(m[1..], j - 1);
      assert m[1..][j - 1] == m[j];
    }
  }

  /** Lists holding the same entries have the same keys. */
  lemma MultisetKeySet<K, V>(a: seq<(K, V)>, b: seq<(K, V)>)
    requires multiset(a) == multiset(b)
    ensures KeySet(a) == KeySet(b)
  {
    forall x | x in KeySet(a) ensures x in KeySet(b) {
      var i :| 0 <= i < |a| && a[i].0 == x;
      assert a[i] in multiset(b);
    }
    forall x | x in KeySet(b) ensures x in KeySet(a) {
      var i :| 0 <= i < |b| && b[i].0 == x;
      assert b[i] in multiset(a);
    }
  }

  /** The keys whose value is `v`. */
  function KeysWithValue<K, V(==)>(m: seq<(K, V)>, v: V): set<K>
  {
    set i | 0 <= i < |m| && m[i].1 == v :: m[i].0
  }

  lemma KeysWithValueSnoc<K, V>(m: seq<(K, V)>, v: V)
    requires m != []
    ensures KeysWithValue(m, v) ==
      KeysWithValue(m[..|m| - 1], v) + (if m[|m| - 1].1 == v then {m[|m| - 1].0} else {})
  {
    var n := |m| - 1;
    var front := m[..n];
    forall x | x in KeysWithValue(m, v)
      ensures x in KeysWithValue(front, v) + (if m[n].1 == v then {m[n].0} else {})
    {
      var i :| 0 <= i < |m| && m[i].1 == v && m[i].0 == x;
      if i < n { assert front[i] == m[i]; }
    }
    forall x | x in KeysWithValue(front, v) ensures x in KeysWithValue(m, v) {
      var i :| 0 <= i < n && front[i].1 == v && front[i].0 == x;
      assert m[i] == front[i];
    }
  }

  /** In a map with distinct keys, counting a value counts the keys that hold it. */
  lemma {:induction false} CountValues<K, V>(m: seq<(K, V)>, v: V)
    requires DistinctKeys(m)
    ensures Count(Values(m), v) == |KeysWithValue(m, v)|
  {
    if m != [] {
      var n := |m| - 1;
      var front := m[..n];
      DistinctPrefix(m, n);
      CountValues(front, v);
      assert Values(m)[..n] == Values(front);
      assert m[n].0 !in KeysWithValue(front, v) by {
        forall i | 0 <= i < n ensures front[i].0 != m[n].0 {
          assert front[i] == m[i];
        }
      }
      KeysWithValueSnoc(m, v);
    }
  }


  /** An element occurs at least once exactly when it is in the sequence. */
  lemma {:induction false} CountPositive<T>(s: seq<T>, x: T)
    ensures Count(s, x) >= 1 <==> x in s
  {
    if s != [] {
      var n := |s| - 1;
      CountPositive(s[..n], x);
      assert s == s[..n] + [s[n]];
    }
  }

  /** The sum of the values of a map with integer values. */
  function SumValues<K>(m: seq<(K, int)>): int
  {
    if m == [] then 0 else m[0].1 + SumValues(m[1..])
  }

  /** A put changes the sum by the difference between the new and the old value. */
  lemma {:induction false} PutSum<K>(m: seq<(K, int)>, k: K, v: int)
    ensures SumValues(Put(m, k, v)) == SumValues(m) - GetOr(m, k, 0) + v
  {
    if m != [] && m[0].0 != k {
      PutSum(m[1..], k, v);
      assert Put(m, k, v)[1..] == Put(m[1..], k, v);
    }
  }

  lemma {:induction false} SumValuesConcat<K>(a: seq<(K, int)>, b: seq<(K, int)>)
    ensures SumValues(a + b) == SumValues(a) + SumValues(b)
  {
    if a == [] {
      assert a + b == b;
    } else {
      SumValuesConcat(a[1..], b);
      assert (a + b)[1..] == a[1..] + b;
    }
  }

  /** Sequence concatenation is associative. */
  lemma ConcatAssoc<T>(a: seq<T>, b: seq<T>, c: seq<T>)
    ensures a + (b + c) == (a + b) + c
  {
  }

  /** Taking one entry out of a list takes its value out of the sum. */
  lemma SumValuesRemove<K>(b: seq<(K, int)>, j: nat)
    requires j < |b|
    ensures SumValues(b) == b[j].1 + SumValues(b[..j] + b[j + 1..])
  {
    var front, back := b[..j], b[j + 1..];
    var tail := [b[j]] + back;
    assert b == front + tail;
    assert tail[0] == b[j] && tail[1..] == back;
    SumValuesConcat(front, tail);
    SumValuesConcat(front, back);
  }

  lemma MultisetRemove<T>(a: seq<T>, b: seq<T>, j: nat)
    requires multiset(a) == multiset(b) && a != [] && j < |b| && b[j] == a[0]
    ensures multiset(a[1..]) == multiset(b[..j] + b[j + 1..])
  {
    assert b == b[..j] + [b[j]] + b[j + 1..];
    assert a == [a[0]] + a[1..];
    assert multiset(b) == multiset(b[..j]) + multiset{b[j]} + multiset(b[j + 1..]);
    assert multiset(a[1..]) == multiset(a) - multiset{a[0]};
  }

  /** Reordering the entries keeps the sum of the values. */
  lemma {:induction false} SumValuesPermutation<K>(a: seq<(K, int)>, b: seq<(K, int)>)
    requires multiset(a) == multiset(b)
    ensures SumValues(a) == SumValues(b)
    decreases |a|
  {
    if a != [] {
      assert a[0] in multiset(b);
      var j :| 0 <= j < |b| && b[j] == a[0];
      MultisetRemove(a, b, j);
      SumValuesPermutation(a[1..], b[..j] + b[j + 1..]);
      SumValuesRemove(b, j);
    } else {
      assert |multiset(b)| == 0;
    }
  }

  lemma KeySetSnoc<K, V>(m: seq<(K, V)>, e: (K, V))
    ensures KeySet(m + [e]) == KeySet(m) + {e.0}
  {
    var r := m + [e];
    forall x | x in KeySet(r) ensures x in KeySet(m) + {e.0} {
      var i :| 0 <= i < |r| && r[i].0 == x;
      if i < |m| { assert r[i] == m[i]; }
    }
    forall x | x in KeySet(m) ensures x in KeySet(r) {
      var i :| 0 <= i < |m| && m[i].0 == x;
      assert r[i] == m[i];
    }
    assert r[|m|] == e;
  }
}
