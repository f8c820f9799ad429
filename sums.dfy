/**
 * Totals of integer-valued maps, independent of the order in which the keys
 * are visited (the order of a Python dict is not part of this model).
 */
module Sums {

  /** The sum of all values of `m`. */
  ghost function Sum<K>(m: map<K, int>): int
    decreases |m|
  {
    if m == map[] then 0
    else
      var a :| a in m;
      m[a] + Sum(m - {a})
  }

  /** The sum does not depend on which key is taken first. */
  lemma {:induction false} SumRemove<K>(m: map<K, int>, a: K)
    requires a in m
    ensures Sum(m) == m[a] + Sum(m - {a})
    decreases |m|
  {
    var b :| b in m && Sum(m) == m[b] + Sum(m - {b});
    if b != a {
      SumRemove(m - {b}, a);
      SumRemove(m - {a}, b);
      assert m - {b} - {a} == m - {a} - {b};
    }
  }

  /** A map that is the key-by-key sum of two maps over the same keys sums to the sum of their sums. */
  lemma {:induction false} SumPlus<K>(m: map<K, int>, n: map<K, int>, p: map<K, int>)
    requires m.Keys == n.Keys == p.Keys
    requires forall a :: a in p ==> p[a] == m[a] + n[a]
    ensures Sum(p) == Sum(m) + Sum(n)
    decreases |p|
  {
    if p != map[] {
      var a :| a in p;
      SumRemove(p, a);
      SumRemove(m, a);
      SumRemove(n, a);
      SumPlus(m - {a}, n - {a}, p - {a});
    }
  }

  lemma InterRemove<K>(s: set<K>, keys: set<K>, a: K)
    requires a in keys
    ensures |s * keys| == |s * (keys - {a})| + (if a in s then 1 else 0)
  {
    if a in s {
      assert s * keys == s * (keys - {a}) + {a};
    } else {
      assert s * keys == s * (keys - {a});
    }
  }

  /** A map that is `c` on the keys in `s` and zero elsewhere sums to `c` times their number. */
  lemma {:induction false} SumIndicator<K>(m: map<K, int>, s: set<K>, c: int)
    requires forall a :: a in m ==> m[a] == (if a in s then c else 0)
    ensures Sum(m) == c * |s * m.Keys|
    decreases |m|
  {
    if m == map[] {
      assert s * m.Keys == {};
    } else {
      var a :| a in m;
      var rest := m - {a};
      var k := |s * rest.Keys|;
      assert rest.Keys == m.Keys - {a};
      InterRemove(s, m.Keys, a);
      SumIndicator(rest, s, c);
      SumRemove(m, a);
      if a in s {
        calc {
          Sum(m);
          c + Sum(rest);
          c + c * k;
          c * (k + 1);
          c * |s * m.Keys|;
        }
      } else {
        calc {
          Sum(m);
          0 + Sum(rest);
          c * k;
          c * |s * m.Keys|;
        }
      }
    }
  }

  /** A map whose every value is `c1` on the keys in `s1` plus `c2` on the keys in `s2`. */
  lemma TwoIndicators<K>(m: map<K, int>, s1: set<K>, c1: int, s2: set<K>, c2: int)
    requires forall a :: a in m ==> m[a] == (if a in s1 then c1 else 0) + (if a in s2 then c2 else 0)
    ensures Sum(m) == c1 * |s1 * m.Keys| + c2 * |s2 * m.Keys|
  {
    var p := map a | a in m :: if a in s1 then c1 else 0;
    var q := map a | a in m :: if a in s2 then c2 else 0;
    assert p.Keys == m.Keys && q.Keys == m.Keys;
    SumPlus(p, q, m);
    SumIndicator(p, s1, c1);
    SumIndicator(q, s2, c2);
  }
}
