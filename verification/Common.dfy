/** Small definitions shared by the component models. */
module Common {

  datatype Option<+T> = None | Some(value: T)

  type Byte = b: int | 0 <= b < 256

  function Max(a: int, b: int): int {
    if a >= b then a else b
  }

  function Min(a: int, b: int): int {
    if a <= b then a else b
  }

  /** The distinct elements of a sequence. */
  ghost function Elements<T>(s: seq<T>): set<T> {
    set x | x in s
  }

  ghost predicate Distinct<T>(s: seq<T>) {
    forall i, j | 0 <= i < j < |s| :: s[i] != s[j]
  }

  /** A sequence has at most as many distinct elements as entries, and exactly as many
      when no entry repeats. */
  lemma {:induction false} ElementsSize<T>(s: seq<T>)
    ensures |Elements(s)| <= |s|
    ensures |Elements(s)| == |s| <==> Distinct(s)
  {
    if s == [] {
    } else {
      var n := |s| - 1;
      var front := s[..n];
      ElementsSize(front);
      assert Elements(s) == Elements(front) + {s[n]};
      if s[n] in front {
        var i :| 0 <= i < n && front[i] == s[n];
        assert s[i] == s[n];
        assert Elements(s) == Elements(front);
      } else {
        assert forall i | 0 <= i < n :: s[i] == front[i];
      }
    }
  }
}

/** Finite sums over the values of a map, weighted by a function of the value. */
module Sums {

  ghost function Pick<K, V>(m: map<K, V>): K
    requires m != map[]
  {
    var k :| k in m; k
  }

  ghost function SumBy<K, V>(m: map<K, V>, f: V -> nat): nat
    decreases |m|
  {
    if m == map[] then 0 else f(m[Pick(m)]) + SumBy(m - {Pick(m)}, f)
  }

  /** The sum does not depend on which key is taken out first. */
  lemma {:induction false} SumByRemove<K, V>(m: map<K, V>, f: V -> nat, k: K)
    requires k in m
    ensures SumBy(m, f) == f(m[k]) + SumBy(m - {k}, f)
    decreases |m|
  {
    var p := Pick(m);
    if p != k {
      SumByRemove(m - {p}, f, k);
      SumByRemove(m - {k}, f, p);
      assert m - {p} - {k} == m - {k} - {p};
    }
  }

  /** Writing one key changes the sum by the difference of the weights. */
  lemma {:induction false} SumByUpdate<K, V>(m: map<K, V>, f: V -> nat, k: K, v: V)
    ensures k in m ==> SumBy(m[k := v], f) + f(m[k]) == SumBy(m, f) + f(v)
    ensures k !in m ==> SumBy(m[k := v], f) == SumBy(m, f) + f(v)
  {
    SumByRemove(m[k := v], f, k);
    assert m[k := v] - {k} == m - {k};
    if k in m {
      SumByRemove(m, f, k);
    } else {
      assert m - {k} == m;
    }
  }

  lemma {:induction false} Distribute(a: nat, b: nat, c: nat)
    ensures a * (b + c) == a * b + a * c
  {
  }

  /** A weight bounded pointwise by a multiple of another is bounded in sum. */
  lemma {:induction false} SumByScaled<K, V>(m: map<K, V>, f: V -> nat, g: V -> nat, scale: nat)
    requires forall k | k in m :: f(m[k]) <= scale * g(m[k])
    ensures SumBy(m, f) <= scale * SumBy(m, g)
    decreases |m|
  {
    if m != map[] {
      var p := Pick(m);
      var rest := m - {p};
      SumByScaled(rest, f, g, scale);
      Distribute(scale, g(m[p]), SumBy(rest, g));
    }
  }

  /** Two weights that together stay below a third pointwise do so in sum. */
  lemma {:induction false} SumByPair<K, V>(m: map<K, V>, f: V -> nat, g: V -> nat, h: V -> nat)
    requires forall k | k in m :: f(m[k]) + g(m[k]) <= h(m[k])
    ensures SumBy(m, f) + SumBy(m, g) <= SumBy(m, h)
    decreases |m|
  {
    if m != map[] {
      SumByPair(m - {Pick(m)}, f, g, h);
    }
  }
}
