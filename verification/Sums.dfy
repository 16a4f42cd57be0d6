/** Sums over finite maps and sequences, and how one change moves them. */
module Sums {

  ghost function SumMap<K>(m: map<K, nat>): nat
    decreases |m|
  {
    if m == map[] then 0 else var k :| k in m; m[k] + SumMap(m - {k})
  }

  lemma {:induction false} SumMapRemove<K>(m: map<K, nat>, k: K)
    requires k in m
    ensures SumMap(m) == m[k] + SumMap(m - {k})
    decreases |m|
  {
    var j :| j in m && SumMap(m) == m[j] + SumMap(m - {j});
    if j != k {
      SumMapRemove(m - {j}, k);
      SumMapRemove(m - {k}, j);
      assert m - {j} - {k} == m - {k} - {j};
    }
  }

  lemma SumMapInsert<K>(m: map<K, nat>, k: K, v: nat)
    requires k !in m
    ensures SumMap(m[k := v]) == SumMap(m) + v
  {
    SumMapRemove(m[k := v], k);
    assert m[k := v] - {k} == m;
  }

  lemma SumMapUpdate<K>(m: map<K, nat>, k: K, v: nat)
    requires k in m
    ensures SumMap(m[k := v]) == SumMap(m) - m[k] + v
    ensures m[k] <= SumMap(m)
  {
    SumMapRemove(m, k);
    SumMapRemove(m[k := v], k);
    assert m[k := v] - {k} == m - {k};
  }

  /** A key that is absent counts as zero. */
  function At<K>(m: map<K, nat>, k: K): nat {
    if k in m then m[k] else 0
  }

  lemma SumMapSet<K>(m: map<K, nat>, k: K, v: nat)
    ensures SumMap(m[k := v]) + At(m, k) == SumMap(m) + v
  {
    if k in m {
      SumMapUpdate(m, k, v);
    } else {
      SumMapInsert(m, k, v);
    }
  }

  /** Two maps that agree but for one key. */
  lemma OneKeyChanges<K>(before: map<K, nat>, after: map<K, nat>, key: K)
    requires after.Keys == before.Keys + {key}
    requires forall k :: k in before && k != key ==> after[k] == before[k]
    ensures SumMap(after) + At(before, key) == SumMap(before) + after[key]
  {
    assert after == before[key := after[key]];
    SumMapSet(before, key, after[key]);
  }

  /** `*entry(key).or_insert(0) += gain` */
  function AddTo<K>(m: map<K, nat>, key: K, gain: nat): map<K, nat> {
    m[key := At(m, key) + gain]
  }

  /** Two maps that agree but for one key, which grows. */
  lemma OneKeyGrows<K>(before: map<K, nat>, after: map<K, nat>, key: K, gain: nat)
    requires before.Keys == after.Keys
    requires forall k :: k in before ==> after[k] == before[k] + if k == key then gain else 0
    ensures key in before ==> after == AddTo(before, key, gain)
    ensures SumMap(after) == SumMap(before) + if key in before then gain else 0
  {
    if key in before {
      assert after == AddTo(before, key, gain);
      SumMapUpdate(before, key, before[key] + gain);
    } else {
      assert after == before;
    }
  }

  lemma {:induction false} AllZero<K>(m: map<K, nat>)
    requires forall k :: k in m ==> m[k] == 0
    ensures SumMap(m) == 0
    decreases |m|
  {
    if m != map[] {
      var k :| k in m;
      SumMapRemove(m, k);
      AllZero(m - {k});
    }
  }

  lemma {:induction false} SumsAdd<K>(a: map<K, nat>, b: map<K, nat>, c: map<K, nat>)
    requires a.Keys == b.Keys == c.Keys && forall k :: k in c ==> c[k] == a[k] + b[k]
    ensures SumMap(c) == SumMap(a) + SumMap(b)
    decreases |c|
  {
    if c == map[] {
      assert a == map[] && b == map[];
    } else {
      var k :| k in c;
      SumsAdd(a - {k}, b - {k}, c - {k});
      SumMapRemove(a, k);
      SumMapRemove(b, k);
      SumMapRemove(c, k);
    }
  }

  /** Where every value of one map is at most the other's, the sums are equal only if the values are. */
  lemma {:induction false} EqualSumsIff<K>(a: map<K, nat>, b: map<K, nat>)
    requires a.Keys == b.Keys && forall k :: k in a ==> a[k] <= b[k]
    ensures SumMap(a) <= SumMap(b)
    ensures SumMap(a) == SumMap(b) <==> forall k :: k in a ==> a[k] == b[k]
    decreases |a|
  {
    if a == map[] {
      assert b == map[];
    } else {
      var k :| k in a;
      EqualSumsIff(a - {k}, b - {k});
      SumMapRemove(a, k);
      SumMapRemove(b, k);
      assert forall j :: j in a ==> j == k || j in a - {k};
    }
  }

  ghost predicate Distinct<T>(s: seq<T>) {
    forall i, j :: 0 <= i < j < |s| ==> s[i] != s[j]
  }
}
