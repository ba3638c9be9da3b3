/** Sums over anything whose parts can be added in any order: the rows of a window,
    the windows waiting, the batches on disk. */
module Sums {

  datatype Monoid<!C> = Monoid(plus: (C, C) -> C, zero: C)

  /** Adding is commutative and associative, with zero. The laws are stated at named
      points, so that a proof uses them only where it calls `Laws`. */
  ghost predicate Lawful<C(!new)>(m: Monoid<C>) {
    forall a, b, c {:trigger At(a, b, c)} :: At(a, b, c) ==>
      && m.plus(a, b) == m.plus(b, a)
      && m.plus(m.plus(a, b), c) == m.plus(a, m.plus(b, c))
      && m.plus(a, m.zero) == a
  }

  ghost predicate At<C>(a: C, b: C, c: C) { true }

  lemma Laws<C(!new)>(m: Monoid<C>, a: C, b: C, c: C)
    requires Lawful(m)
    ensures m.plus(a, b) == m.plus(b, a)
    ensures m.plus(m.plus(a, b), c) == m.plus(a, m.plus(b, c))
    ensures m.plus(a, m.zero) == a == m.plus(m.zero, a)
  {
    assert At(a, b, c) && At(a, m.zero, c);
  }

  function SeqSum<T, C>(m: Monoid<C>, s: seq<T>, of: T -> C): C {
    if s == [] then m.zero else m.plus(SeqSum(m, s[..|s| - 1], of), of(s[|s| - 1]))
  }

  ghost function MapSum<K(!new), V(!new), C>(m: Monoid<C>, f: map<K, V>, of: V -> C): C
    decreases |f|
  {
    if f == map[] then m.zero
    else
      var k :| k in f;
      m.plus(MapSum(m, f - {k}, of), of(f[k]))
  }

  lemma {:induction false} SeqSumConcat<T, C(!new)>(m: Monoid<C>, a: seq<T>, b: seq<T>, of: T -> C)
    requires Lawful(m)
    ensures SeqSum(m, a + b, of) == m.plus(SeqSum(m, a, of), SeqSum(m, b, of))
  {
    if b == [] {
      assert a + b == a;
      Laws(m, SeqSum(m, a, of), m.zero, m.zero);
    } else {
      var n := |b| - 1;
      assert (a + b)[..|a + b| - 1] == a + b[..n];
      SeqSumConcat(m, a, b[..n], of);
      Laws(m, SeqSum(m, a, of), SeqSum(m, b[..n], of), of(b[n]));
    }
  }

  lemma SeqSumOne<T, C(!new)>(m: Monoid<C>, x: T, of: T -> C)
    requires Lawful(m)
    ensures SeqSum(m, [x], of) == of(x)
  {
    Laws(m, of(x), m.zero, m.zero);
    assert [x][..0] == [];
  }

  lemma {:induction false} MapSumRemove<K(!new), V(!new), C(!new)>(m: Monoid<C>, f: map<K, V>, of: V -> C, k: K)
    requires Lawful(m) && k in f
    ensures MapSum(m, f, of) == m.plus(MapSum(m, f - {k}, of), of(f[k]))
    decreases |f|
  {
    var j :| j in f && MapSum(m, f, of) == m.plus(MapSum(m, f - {j}, of), of(f[j]));
    if j != k {
      MapSumRemove(m, f - {j}, of, k);
      MapSumRemove(m, f - {k}, of, j);
      assert f - {j} - {k} == f - {k} - {j};
      Swap(m, MapSum(m, f - {j} - {k}, of), of(f[k]), of(f[j]));
    }
  }

  lemma MapSumAdd<K(!new), V(!new), C(!new)>(m: Monoid<C>, f: map<K, V>, of: V -> C, k: K, v: V)
    requires Lawful(m) && k !in f
    ensures MapSum(m, f[k := v], of) == m.plus(MapSum(m, f, of), of(v))
  {
    var g := f[k := v];
    assert g - {k} == f;
    MapSumRemove(m, g, of, k);
  }

  lemma Swap<C(!new)>(m: Monoid<C>, a: C, b: C, c: C)
    requires Lawful(m)
    ensures m.plus(m.plus(a, b), c) == m.plus(m.plus(a, c), b)
    ensures m.plus(m.plus(a, b), c) == m.plus(a, m.plus(b, c)) == m.plus(a, m.plus(c, b))
  {
    Laws(m, a, b, c);
    Laws(m, b, c, a);
    Laws(m, a, c, b);
  }
}
