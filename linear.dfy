/** Finite linear combinations with integer coefficients: the element
    representation of a free module with a distinguished basis. An element is a
    dictionary from basis indices to coefficients; an index that is absent has
    coefficient zero. A formal sum is a list of terms in which an index may
    occur more than once; collecting it adds up the coefficients of equal indices
    and drops the ones that cancel, as building an element from terms does. */
module Linear {

  /** A list of (basis index, coefficient) terms, repeats allowed. */
  type FormalSum<K> = seq<(K, int)>

  /** The coefficient of `k` in `x`, zero when `k` is not in the support. */
  function Coefficient<K>(x: map<K, int>, k: K): int
  {
    if k in x then x[k] else 0
  }

  /** No stored coefficient is zero: the invariant of every element. */
  ghost predicate Reduced<K>(x: map<K, int>)
  {
    forall k :: k in x ==> x[k] != 0
  }

  /** An element is determined by its coefficients. */
  lemma ReducedExtensional<K>(x: map<K, int>, y: map<K, int>)
    requires Reduced(x) && Reduced(y)
    requires forall k :: Coefficient(x, k) == Coefficient(y, k)
    ensures x == y
  {
    assert forall k :: k in x <==> Coefficient(x, k) != 0;
    assert forall k :: k in y <==> Coefficient(y, k) != 0;
    assert x.Keys == y.Keys;
  }

  /** Building an element from a dictionary, dropping zero coefficients. */
  function Reduce<K(!new)>(x: map<K, int>): (r: map<K, int>)
    ensures Reduced(r)
    ensures forall k :: Coefficient(r, k) == Coefficient(x, k)
  {
    map k | k in x && x[k] != 0 :: x[k]
  }

  /** The element `c` times basis vector `k` (zero when `c` is zero). */
  function Term<K(!new)>(k: K, c: int): (r: map<K, int>)
    ensures Reduced(r)
    ensures forall k' :: Coefficient(r, k') == if k' == k then c else 0
  {
    if c == 0 then map[] else map[k := c]
  }

  /** The basis vector indexed by `k`. */
  function Monomial<K(!new)>(k: K): (r: map<K, int>)
    ensures Reduced(r)
    ensures forall k' :: Coefficient(r, k') == if k' == k then 1 else 0
  {
    map[k := 1]
  }

  /** The total coefficient of `k` among the terms of `t`. */
  function Weight<K(==)>(t: FormalSum<K>, k: K): int
  {
    if t == [] then 0
    else Weight(t[..|t| - 1], k) + (if t[|t| - 1].0 == k then t[|t| - 1].1 else 0)
  }

  lemma {:induction false} WeightAppend<K>(s: FormalSum<K>, t: FormalSum<K>, k: K)
    ensures Weight(s + t, k) == Weight(s, k) + Weight(t, k)
    decreases |t|
  {
    if t == [] {
      assert s + t == s;
    } else {
      assert (s + t)[..|s + t| - 1] == s + t[..|t| - 1];
      WeightAppend(s, t[..|t| - 1], k);
    }
  }

  /** A nonzero weight on `k` needs a term indexed by `k`. */
  lemma {:induction false} WeightSupport<K>(t: FormalSum<K>, k: K)
    requires Weight(t, k) != 0
    ensures exists i :: 0 <= i < |t| && t[i].0 == k
  {
    if t[|t| - 1].0 != k {
      WeightSupport(t[..|t| - 1], k);
      var i :| 0 <= i < |t| - 1 && t[..|t| - 1][i].0 == k;
      assert t[i].0 == k;
    }
  }

  /** Adding `c` times basis vector `k` to an element. */
  function AddTerm<K(!new)>(x: map<K, int>, k: K, c: int): (r: map<K, int>)
    ensures Reduced(x) ==> Reduced(r)
    ensures forall k' :: Coefficient(r, k') == Coefficient(x, k') + (if k' == k then c else 0)
  {
    var n := Coefficient(x, k) + c;
    if n == 0 then x - {k} else x[k := n]
  }

  /** The element a list of terms adds up to (`sum_of_terms`). */
  function Collect<K(==,!new)>(t: FormalSum<K>): (r: map<K, int>)
    ensures Reduced(r)
    ensures forall k :: Coefficient(r, k) == Weight(t, k)
  {
    if t == [] then map[] else AddTerm(Collect(t[..|t| - 1]), t[|t| - 1].0, t[|t| - 1].1)
  }

  /** Every index in the support of a collected sum is the index of one of its terms. */
  lemma CollectSupport<K(!new)>(t: FormalSum<K>, k: K)
    requires k in Collect(t)
    ensures exists i :: 0 <= i < |t| && t[i].0 == k
  {
    WeightSupport(t, k);
  }

  /** The sum of all coefficients of an element. */
  ghost function Total<K>(x: map<K, int>): int
    decreases |x|
  {
    if x == map[] then 0 else var k :| k in x; x[k] + Total(x - {k})
  }

  /** The sum of all coefficients of a list of terms. */
  function Sum<K>(t: FormalSum<K>): int
  {
    if t == [] then 0 else Sum(t[..|t| - 1]) + t[|t| - 1].1
  }

  /** The sum over an element does not depend on which coefficient is taken first. */
  lemma {:induction false} TotalRemove<K>(x: map<K, int>, k: K)
    requires k in x
    ensures Total(x) == x[k] + Total(x - {k})
    decreases |x|
  {
    var j :| j in x && Total(x) == x[j] + Total(x - {j});
    if j != k {
      TotalRemove(x - {j}, k);
      TotalRemove(x - {k}, j);
      assert x - {j} - {k} == x - {k} - {j};
    }
  }

  lemma TotalAddTerm<K(!new)>(x: map<K, int>, k: K, c: int)
    ensures Total(AddTerm(x, k, c)) == Total(x) + c
  {
    var r := AddTerm(x, k, c);
    if k in x {
      TotalRemove(x, k);
      if k in r {
        TotalRemove(r, k);
        assert r - {k} == x - {k};
      } else {
        assert r == x - {k};
      }
    } else {
      assert x - {k} == x;
      if k in r {
        TotalRemove(r, k);
        assert r - {k} == x;
      } else {
        assert r == x;
      }
    }
  }

  /** Collecting like terms keeps the sum of the coefficients. */
  lemma {:induction false} TotalCollect<K(!new)>(t: FormalSum<K>)
    ensures Total(Collect(t)) == Sum(t)
  {
    if t != [] {
      TotalCollect(t[..|t| - 1]);
      TotalAddTerm(Collect(t[..|t| - 1]), t[|t| - 1].0, t[|t| - 1].1);
    }
  }

  /** The pairing of a list of terms with a weight per index: the sum of
      c g(k) over its terms (k, c). */
  function Pairing<K>(t: FormalSum<K>, g: K -> int): int
  {
    if t == [] then 0 else Pairing(t[..|t| - 1], g) + t[|t| - 1].1 * g(t[|t| - 1].0)
  }

  /** Every term (k, c) of `t` replaced by (k, c g(k)). */
  function Scaled<K>(t: FormalSum<K>, g: K -> int): (r: FormalSum<K>)
    ensures |r| == |t|
    ensures forall i :: 0 <= i < |t| ==> r[i] == (t[i].0, t[i].1 * g(t[i].0))
  {
    seq(|t|, i requires 0 <= i < |t| => (t[i].0, t[i].1 * g(t[i].0)))
  }

  lemma {:induction false} WeightScaled<K>(t: FormalSum<K>, g: K -> int, k: K)
    ensures Weight(Scaled(t, g), k) == Weight(t, k) * g(k)
  {
    if t != [] {
      var n := |t|;
      assert Scaled(t, g)[..n - 1] == Scaled(t[..n - 1], g);
      WeightScaled(t[..n - 1], g, k);
      var c := if t[n - 1].0 == k then t[n - 1].1 else 0;
      assert Weight(t, k) == Weight(t[..n - 1], k) + c;
      assert Weight(Scaled(t, g), k) == Weight(t[..n - 1], k) * g(k) + c * g(k);
      Distribute(Weight(t[..n - 1], k), c, g(k));
    }
  }

  lemma Distribute(a: int, b: int, c: int)
    ensures (a + b) * c == a * c + b * c
  {
  }

  lemma {:induction false} SumScaled<K>(t: FormalSum<K>, g: K -> int)
    ensures Sum(Scaled(t, g)) == Pairing(t, g)
  {
    if t != [] {
      assert Scaled(t, g)[..|t| - 1] == Scaled(t[..|t| - 1], g);
      SumScaled(t[..|t| - 1], g);
    }
  }

  /** A pairing depends only on the element a list of terms adds up to: lists
      with the same collected sum pair alike with every weight. */
  lemma PairingCollect<K(!new)>(t: FormalSum<K>, t': FormalSum<K>, g: K -> int)
    requires Collect(t) == Collect(t')
    ensures Pairing(t, g) == Pairing(t', g)
  {
    forall k ensures Coefficient(Collect(Scaled(t, g)), k) == Coefficient(Collect(Scaled(t', g)), k) {
      WeightScaled(t, g, k);
      WeightScaled(t', g, k);
      assert Weight(t, k) == Coefficient(Collect(t), k) == Weight(t', k);
    }
    ReducedExtensional(Collect(Scaled(t, g)), Collect(Scaled(t', g)));
    TotalCollect(Scaled(t, g));
    TotalCollect(Scaled(t', g));
    SumScaled(t, g);
    SumScaled(t', g);
  }

  /** The sum of two elements. */
  function Add<K(!new)>(x: map<K, int>, y: map<K, int>): (r: map<K, int>)
    ensures Reduced(r)
    ensures forall k :: Coefficient(r, k) == Coefficient(x, k) + Coefficient(y, k)
  {
    Reduce(map k | k in x.Keys + y.Keys :: Coefficient(x, k) + Coefficient(y, k))
  }

  /** Zero is a two-sided identity for the sum of reduced elements. */
  lemma AddZero<K(!new)>(x: map<K, int>)
    requires Reduced(x)
    ensures Add(map[], x) == x && Add(x, map[]) == x
  {
    ReducedExtensional(Add(map[], x), x);
    ReducedExtensional(Add(x, map[]), x);
  }

  lemma AddAssociative<K(!new)>(x: map<K, int>, y: map<K, int>, z: map<K, int>)
    ensures Add(Add(x, y), z) == Add(x, Add(y, z))
  {
    ReducedExtensional(Add(Add(x, y), z), Add(x, Add(y, z)));
  }
}
