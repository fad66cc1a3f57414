/** Counting the entries of a map, and sizes of finite sets. */
module Counting {
  /** How many entries meet a condition. */
  ghost function CountIf<K(!new), V>(m: map<K, V>, p: (K, V) -> bool): (n: nat) {
    |set k | k in m && p(k, m[k])|
  }

  function One(b: bool): int {
    if b then 1 else 0
  }

  lemma CountWithout<K(!new), V>(m: map<K, V>, p: (K, V) -> bool, k: K)
    ensures CountIf(m, p) == CountIf(m - {k}, p) + One(k in m && p(k, m[k]))
  {
    var rest := m - {k};
    var all := set j | j in m && p(j, m[j]);
    var fewer := set j | j in rest && p(j, rest[j]);
    if k in m && p(k, m[k]) {
      assert all == fewer + {k};
    } else {
      assert all == fewer;
    }
  }

  /** Setting one entry changes a count by whether it counted before and counts now. */
  lemma CountSet<K(!new), V>(m: map<K, V>, p: (K, V) -> bool, k: K, v: V)
    ensures CountIf(m[k := v], p) == CountIf(m, p) + One(p(k, v)) - One(k in m && p(k, m[k]))
  {
    CountWithout(m[k := v], p, k);
    CountWithout(m, p, k);
    assert m[k := v] - {k} == m - {k};
  }

  lemma CountNone<K(!new), V>(m: map<K, V>, p: (K, V) -> bool)
    requires forall k :: k in m ==> !p(k, m[k])
    ensures CountIf(m, p) == 0
  {
    assert (set k | k in m && p(k, m[k])) == {};
  }

  lemma CountSame<K(!new), V>(a: map<K, V>, b: map<K, V>, p: (K, V) -> bool)
    requires forall k :: (k in a && p(k, a[k])) == (k in b && p(k, b[k]))
    ensures CountIf(a, p) == CountIf(b, p)
  {
    assert (set k | k in a && p(k, a[k])) == (set k | k in b && p(k, b[k]));
  }

  lemma SubsetSize<T>(a: set<T>, b: set<T>)
    requires a <= b
    ensures |a| <= |b|
  {
    assert b == a + (b - a);
  }

  /** A number above all of a set. */
  lemma {:induction false} FreshId(ids: set<nat>) returns (id: nat)
    ensures forall i :: i in ids ==> i < id
  {
    id := 0;
    if ids != {} {
      var i :| i in ids;
      var more := FreshId(ids - {i});
      id := if i < more then more else i + 1;
      assert forall j :: j in ids ==> j == i || j in ids - {i};
    }
  }
}
