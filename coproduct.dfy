/** The coproduct of the tensor algebra. Its values live in the tensor square
    T(M) # T(M), whose basis is indexed by pairs of words and whose product
    concatenates both components. The coproduct of a word is the product, in
    word order, of the primitive coproducts g # 1 + 1 # g of its letters.

    Elements of the tensor square are handled here as lists of terms, as the
    running product builds them; collecting a list gives the element. */
module Coproduct {
  import opened Words
  import opened Linear
  import opened TensorAlgebra

  /** A basis index of the tensor square: a pair of words. */
  type Pair<I> = (Word<I>, Word<I>)

  /** A list of terms of the tensor square. */
  type Terms<I> = FormalSum<Pair<I>>

  /** 2^n. */
  function Pow2(n: nat): nat
  {
    if n == 0 then 1 else 2 * Pow2(n - 1)
  }

  // ---------------------------------------------------------------------
  // The product of the tensor square, on lists of terms

  /** The product of two terms: both components concatenated, coefficients multiplied. */
  function MulTerm<I>(s: (Pair<I>, int), t: (Pair<I>, int)): (Pair<I>, int)
  {
    ((s.0.0 + t.0.0, s.0.1 + t.0.1), s.1 * t.1)
  }

  /** A term times every term of `b`, in order. */
  function MulLeft<I>(s: (Pair<I>, int), b: Terms<I>): (r: Terms<I>)
    ensures |r| == |b|
    ensures forall i :: 0 <= i < |b| ==> r[i] == MulTerm(s, b[i])
  {
    seq(|b|, i requires 0 <= i < |b| => MulTerm(s, b[i]))
  }

  /** The product of two lists of terms: every term of `a` times every term of `b`. */
  function Mul<I>(a: Terms<I>, b: Terms<I>): Terms<I>
  {
    if a == [] then [] else Mul(a[..|a| - 1], b) + MulLeft(a[|a| - 1], b)
  }

  /** Every product of a term of `a` with a term of `b` is a term of the product ... */
  lemma {:induction false} MulTermsComplete<I>(a: Terms<I>, b: Terms<I>, i: nat, j: nat)
    requires i < |a| && j < |b|
    ensures MulTerm(a[i], b[j]) in Mul(a, b)
  {
    var n := |a|;
    var p, q := Mul(a[..n - 1], b), MulLeft(a[n - 1], b);
    if i < n - 1 {
      MulTermsComplete(a[..n - 1], b, i, j);
      assert a[..n - 1][i] == a[i];
      assert MulTerm(a[i], b[j]) in p;
    } else {
      assert q[j] == MulTerm(a[i], b[j]);
      assert MulTerm(a[i], b[j]) in q;
    }
    assert Mul(a, b) == p + q;
  }

  /** ... and every term of the product is one of these products. */
  lemma {:induction false} MulTermsSound<I>(a: Terms<I>, b: Terms<I>, k: nat)
    requires k < |Mul(a, b)|
    ensures exists i, j :: 0 <= i < |a| && 0 <= j < |b| && Mul(a, b)[k] == MulTerm(a[i], b[j])
  {
    var n := |a|;
    var p, q := Mul(a[..n - 1], b), MulLeft(a[n - 1], b);
    assert Mul(a, b) == p + q;
    if k < |p| {
      MulTermsSound(a[..n - 1], b, k);
      var i, j :| 0 <= i < n - 1 && 0 <= j < |b| && p[k] == MulTerm(a[..n - 1][i], b[j]);
      assert a[..n - 1][i] == a[i];
      assert Mul(a, b)[k] == MulTerm(a[i], b[j]);
    } else {
      assert Mul(a, b)[k] == MulTerm(a[n - 1], b[k - |p|]);
    }
  }

  /** The unit of the tensor square, 1 # 1. */
  function Unit<I>(): Terms<I>
  {
    [((OneBasis(), OneBasis()), 1)]
  }

  lemma {:induction false} MulLength<I>(a: Terms<I>, b: Terms<I>)
    ensures |Mul(a, b)| == |a| * |b|
  {
    if a != [] {
      var n := |a|;
      MulLength(a[..n - 1], b);
      assert |Mul(a, b)| == (n - 1) * |b| + |b|;
      assert (n - 1) * |b| + |b| == n * |b| by { PredecessorTimes(n, |b|); }
    }
  }

  lemma PredecessorTimes(n: int, k: int)
    ensures (n - 1) * k + k == n * k
  {
  }

  lemma {:induction false} MulAppendLeft<I>(a1: Terms<I>, a2: Terms<I>, b: Terms<I>)
    ensures Mul(a1 + a2, b) == Mul(a1, b) + Mul(a2, b)
    decreases |a2|
  {
    if a2 == [] {
      assert a1 + a2 == a1;
    } else {
      var n := |a2|;
      var a := a1 + a2;
      AppendButLast(a1, a2);
      MulAppendLeft(a1, a2[..n - 1], b);
      calc {
        Mul(a, b);
        Mul(a[..|a| - 1], b) + MulLeft(a[|a| - 1], b);
        Mul(a1 + a2[..n - 1], b) + MulLeft(a2[n - 1], b);
        (Mul(a1, b) + Mul(a2[..n - 1], b)) + MulLeft(a2[n - 1], b);
        { ConcatAssociative(Mul(a1, b), Mul(a2[..n - 1], b), MulLeft(a2[n - 1], b)); }
        Mul(a1, b) + Mul(a2, b);
      }
    }
  }

  lemma MulLeftAppend<I>(s: (Pair<I>, int), b1: Terms<I>, b2: Terms<I>)
    ensures MulLeft(s, b1 + b2) == MulLeft(s, b1) + MulLeft(s, b2)
  {
  }

  lemma MulTermAssociative<I>(s: (Pair<I>, int), t: (Pair<I>, int), r: (Pair<I>, int))
    ensures MulTerm(MulTerm(s, t), r) == MulTerm(s, MulTerm(t, r))
  {
    assert (s.0.0 + t.0.0) + r.0.0 == s.0.0 + (t.0.0 + r.0.0);
    assert (s.0.1 + t.0.1) + r.0.1 == s.0.1 + (t.0.1 + r.0.1);
    assert (s.1 * t.1) * r.1 == s.1 * (t.1 * r.1);
  }

  lemma MulLeftMulLeft<I>(s: (Pair<I>, int), t: (Pair<I>, int), c: Terms<I>)
    ensures MulLeft(MulTerm(s, t), c) == MulLeft(s, MulLeft(t, c))
  {
    forall i | 0 <= i < |c| ensures MulLeft(MulTerm(s, t), c)[i] == MulLeft(s, MulLeft(t, c))[i] {
      MulTermAssociative(s, t, c[i]);
    }
  }

  lemma {:induction false} MulOfMulLeft<I>(s: (Pair<I>, int), b: Terms<I>, c: Terms<I>)
    ensures Mul(MulLeft(s, b), c) == MulLeft(s, Mul(b, c))
  {
    if b == [] {
      assert MulLeft(s, b) == [];
    } else {
      var n := |b|;
      var b', t := b[..n - 1], b[n - 1];
      assert MulLeft(s, b) == MulLeft(s, b') + [MulTerm(s, t)];
      assert MulLeft(s, b)[..n - 1] == MulLeft(s, b');
      MulOfMulLeft(s, b', c);
      MulLeftAppend(s, Mul(b', c), MulLeft(t, c));
      MulLeftMulLeft(s, t, c);
    }
  }

  /** The product of the tensor square is associative, term list by term list. */
  lemma {:induction false} MulAssociative<I>(a: Terms<I>, b: Terms<I>, c: Terms<I>)
    ensures Mul(Mul(a, b), c) == Mul(a, Mul(b, c))
  {
    if a != [] {
      var n := |a|;
      MulAssociative(a[..n - 1], b, c);
      MulAppendLeft(Mul(a[..n - 1], b), MulLeft(a[n - 1], b), c);
      MulOfMulLeft(a[n - 1], b, c);
    }
  }

  /** The weight of a term times a list on a pair `k`: the list paired with
      the weight the term gives each of its indices. */
  lemma {:induction false} WeightMulLeft<I>(s: (Pair<I>, int), b: Terms<I>, k: Pair<I>)
    ensures Weight(MulLeft(s, b), k) == Pairing(b, (q: Pair<I>) => if (s.0.0 + q.0, s.0.1 + q.1) == k then s.1 else 0)
  {
    if b != [] {
      var n := |b|;
      assert MulLeft(s, b)[..n - 1] == MulLeft(s, b[..n - 1]);
      WeightMulLeft(s, b[..n - 1], k);
    }
  }

  /** The weight of a term times a list is linear in the term's coefficient. */
  lemma {:induction false} WeightMulLeftCoefficient<I>(s: (Pair<I>, int), b: Terms<I>, k: Pair<I>)
    ensures Weight(MulLeft(s, b), k) == s.1 * Weight(MulLeft((s.0, 1), b), k)
  {
    if b != [] {
      var n := |b|;
      assert MulLeft(s, b)[..n - 1] == MulLeft(s, b[..n - 1]);
      assert MulLeft((s.0, 1), b)[..n - 1] == MulLeft((s.0, 1), b[..n - 1]);
      WeightMulLeftCoefficient(s, b[..n - 1], k);
    }
  }

  /** The weight of a product on `k`: the left factor paired with the weight
      each of its indices contributes. */
  lemma {:induction false} WeightMul<I>(a: Terms<I>, b: Terms<I>, k: Pair<I>)
    ensures Weight(Mul(a, b), k) == Pairing(a, (p: Pair<I>) => Weight(MulLeft((p, 1), b), k))
  {
    if a != [] {
      var n := |a|;
      var g := (p: Pair<I>) => Weight(MulLeft((p, 1), b), k);
      WeightMul(a[..n - 1], b, k);
      assert Mul(a, b) == Mul(a[..n - 1], b) + MulLeft(a[n - 1], b);
      WeightAppend(Mul(a[..n - 1], b), MulLeft(a[n - 1], b), k);
      WeightMulLeftCoefficient(a[n - 1], b, k);
      assert Pairing(a, g) == Pairing(a[..n - 1], g) + a[n - 1].1 * g(a[n - 1].0);
    }
  }

  /** The product of lists of terms is a product of elements: the collected
      product depends only on the collected left factor ... */
  lemma MulCollectLeft<I(!new)>(a: Terms<I>, a': Terms<I>, b: Terms<I>)
    requires Collect(a) == Collect(a')
    ensures Collect(Mul(a, b)) == Collect(Mul(a', b))
  {
    forall k ensures Weight(Mul(a, b), k) == Weight(Mul(a', b), k) {
      WeightMul(a, b, k);
      WeightMul(a', b, k);
      PairingCollect(a, a', (p: Pair<I>) => Weight(MulLeft((p, 1), b), k));
    }
    ReducedExtensional(Collect(Mul(a, b)), Collect(Mul(a', b)));
  }

  /** ... and only on the collected right factor. */
  lemma {:induction false} MulCollectRight<I(!new)>(a: Terms<I>, b: Terms<I>, b': Terms<I>)
    requires Collect(b) == Collect(b')
    ensures Collect(Mul(a, b)) == Collect(Mul(a, b'))
  {
    forall k ensures Weight(Mul(a, b), k) == Weight(Mul(a, b'), k) {
      WeightMulRight(a, b, b', k);
    }
    ReducedExtensional(Collect(Mul(a, b)), Collect(Mul(a, b')));
  }

  lemma {:induction false} WeightMulRight<I(!new)>(a: Terms<I>, b: Terms<I>, b': Terms<I>, k: Pair<I>)
    requires Collect(b) == Collect(b')
    ensures Weight(Mul(a, b), k) == Weight(Mul(a, b'), k)
  {
    if a != [] {
      var n := |a|;
      var s := a[n - 1];
      WeightMulRight(a[..n - 1], b, b', k);
      WeightAppend(Mul(a[..n - 1], b), MulLeft(s, b), k);
      WeightAppend(Mul(a[..n - 1], b'), MulLeft(s, b'), k);
      WeightMulLeft(s, b, k);
      WeightMulLeft(s, b', k);
      PairingCollect(b, b', (q: Pair<I>) => if (s.0.0 + q.0, s.0.1 + q.1) == k then s.1 else 0);
    }
  }

  /** 1 # 1 is a two-sided unit. */
  lemma MulUnit<I>(a: Terms<I>)
    ensures Mul(Unit(), a) == a
    ensures Mul(a, Unit()) == a
  {
    MulUnitLeft(a);
    MulUnitRight(a);
  }

  lemma MulUnitLeft<I>(a: Terms<I>)
    ensures Mul(Unit(), a) == a
  {
    var u: Terms<I> := Unit();
    assert u[..0] == [];
    assert Mul(u, a) == [] + MulLeft(u[0], a);
    MulLeftUnit(a);
  }

  lemma MulLeftUnit<I>(a: Terms<I>)
    ensures MulLeft(((OneBasis(), OneBasis()), 1), a) == a
  {
    var l := MulLeft(((OneBasis(), OneBasis()), 1), a);
    forall i | 0 <= i < |a| ensures l[i] == a[i] {
      assert [] + a[i].0.0 == a[i].0.0 && [] + a[i].0.1 == a[i].0.1;
    }
  }

  lemma {:induction false} MulUnitRight<I>(a: Terms<I>)
    ensures Mul(a, Unit()) == a
  {
    if a != [] {
      var n := |a|;
      MulUnitRight(a[..n - 1]);
      MulLeftByUnit(a[n - 1]);
      ButLastAppendLast(a);
    }
  }

  lemma MulLeftByUnit<I>(s: (Pair<I>, int))
    ensures MulLeft(s, Unit()) == [s]
  {
    assert s.0.0 + [] == s.0.0 && s.0.1 + [] == s.0.1;
  }

  // ---------------------------------------------------------------------
  // The coproduct

  /** The coproduct of a generator, g # 1 + 1 # g. */
  function Primitive<I>(x: I): Terms<I>
  {
    [((Gen(x), OneBasis()), 1), ((OneBasis(), Gen(x)), 1)]
  }

  /** The running product of the primitive coproducts of the letters of a word. */
  function ProductOfPrimitives<I>(xs: Word<I>): Terms<I>
  {
    if xs == [] then Unit() else Mul(ProductOfPrimitives(xs[..|xs| - 1]), Primitive(xs[|xs| - 1]))
  }

  /** The terms of the coproduct of the basis vector indexed by `m`: the unit
      for the empty word, m # 1 + 1 # m for a generator, and otherwise the
      product of the primitive coproducts of the letters of the expanded word. */
  function CoproductTerms<I(==)>(m: Word<I>): Terms<I>
  {
    if |m| == 0 then Unit()
    else if |m| == 1 then [((m, OneBasis()), 1), ((OneBasis(), m), 1)]
    else ProductOfPrimitives(Expand(Compress(m)))
  }

  /** The coproduct of the basis vector indexed by `m`, as an element of the
      tensor square. */
  function CoproductOnBasis<I(==,!new)>(m: Word<I>): (r: map<Pair<I>, int>)
    ensures Reduced(r)
  {
    Collect(CoproductTerms(m))
  }

  /** The special cases for the empty word and for a generator agree with the
      general formula: the coproduct of every word is the product of the
      primitive coproducts of its letters. */
  lemma CoproductIsProductOfPrimitives<I>(m: Word<I>)
    ensures CoproductTerms(m) == ProductOfPrimitives(m)
  {
    if |m| == 1 {
      assert m[..0] == [];
      assert m == Gen(m[0]);
      MulUnit(Primitive(m[0]));
    }
  }

  lemma {:induction false} ProductOfPrimitivesAppend<I>(a: Word<I>, b: Word<I>)
    ensures ProductOfPrimitives(a + b) == Mul(ProductOfPrimitives(a), ProductOfPrimitives(b))
    decreases |b|
  {
    if b == [] {
      assert a + b == a;
      MulUnit(ProductOfPrimitives(a));
    } else {
      var n := |b|;
      AppendButLast(a, b);
      ProductOfPrimitivesAppend(a, b[..n - 1]);
      MulAssociative(ProductOfPrimitives(a), ProductOfPrimitives(b[..n - 1]), Primitive(b[n - 1]));
    }
  }

  /** The coproduct is multiplicative: the coproduct of a b is the product of
      the coproducts of a and of b. */
  lemma CoproductMultiplicative<I>(a: Word<I>, b: Word<I>)
    ensures CoproductTerms(a + b) == Mul(CoproductTerms(a), CoproductTerms(b))
  {
    CoproductIsProductOfPrimitives(a + b);
    CoproductIsProductOfPrimitives(a);
    CoproductIsProductOfPrimitives(b);
    ProductOfPrimitivesAppend(a, b);
  }

  /** The coproduct of a b c is the product of the coproducts of its letters. */
  lemma CoproductExample<I>(a: I, b: I, c: I)
    ensures CoproductTerms([a, b, c]) == Mul(Mul(CoproductTerms([a]), CoproductTerms([b])), CoproductTerms([c]))
  {
    ThreeLetters(a, b, c);
    CoproductMultiplicative([a], [b]);
    CoproductMultiplicative([a] + [b], [c]);
  }

  lemma ThreeLetters<I>(a: I, b: I, c: I)
    ensures [a] + [b] + [c] == [a, b, c]
  {
  }

  /** The coproduct of the empty word is 1 # 1, that of a generator g is g # 1 + 1 # g. */
  lemma CoproductSmallExamples<I(!new)>(g: I)
    ensures CoproductOnBasis<I>([]) == map[([], []) := 1]
    ensures CoproductOnBasis([g]) == map[([g], []) := 1, ([], [g]) := 1]
  {
    var u: Terms<I> := Unit();
    assert u[..0] == [];
    ReducedExtensional(CoproductOnBasis<I>([]), map[([], []) := 1]);
    var p := CoproductTerms([g]);
    forall k ensures Coefficient(CoproductOnBasis([g]), k) == Coefficient(map[([g], []) := 1, ([], [g]) := 1], k) {
      WeightOfTwo(p[0], p[1], k);
      assert p == [p[0], p[1]];
    }
    ReducedExtensional(CoproductOnBasis([g]), map[([g], []) := 1, ([], [g]) := 1]);
  }

  // ---------------------------------------------------------------------
  // Shape of the coproduct

  /** Every term of `t` has coefficient 1 and components of total length `n`. */
  ghost predicate Unitriangular<I>(t: Terms<I>, n: nat)
  {
    forall i :: 0 <= i < |t| ==> t[i].1 == 1 && |t[i].0.0| + |t[i].0.1| == n
  }

  lemma {:induction false} MulPrimitiveShape<I>(p: Terms<I>, x: I, n: nat)
    requires Unitriangular(p, n)
    ensures Unitriangular(Mul(p, Primitive(x)), n + 1)
  {
    if p != [] {
      MulPrimitiveShape(p[..|p| - 1], x, n);
    }
  }

  /** The coproduct of a word of length n has 2^n terms, each with
      coefficient 1 and a pair of words whose lengths add up to n. */
  lemma {:induction false} CoproductShape<I>(m: Word<I>)
    ensures |ProductOfPrimitives(m)| == Pow2(|m|)
    ensures Unitriangular(ProductOfPrimitives(m), |m|)
  {
    if m != [] {
      var n := |m|;
      CoproductShape(m[..n - 1]);
      MulLength(ProductOfPrimitives(m[..n - 1]), Primitive(m[n - 1]));
      MulPrimitiveShape(ProductOfPrimitives(m[..n - 1]), m[n - 1], n - 1);
    }
  }

  /** Every basis pair in the coproduct of `m` splits the degree of `m`. */
  lemma CoproductDegree<I(!new)>(m: Word<I>)
    ensures forall p :: p in CoproductOnBasis(m) ==> DegreeOnBasis(p.0) + DegreeOnBasis(p.1) == DegreeOnBasis(m)
  {
    forall p | p in CoproductOnBasis(m) ensures |p.0| + |p.1| == |m| {
      CoproductIsProductOfPrimitives(m);
      CoproductShape(m);
      CollectSupport(CoproductTerms(m), p);
    }
  }

  lemma {:induction false} SumUnitriangular<I>(t: Terms<I>, n: nat)
    requires Unitriangular(t, n)
    ensures Sum(t) == |t|
  {
    if t != [] {
      SumUnitriangular(t[..|t| - 1], n);
    }
  }

  /** The coefficients of the coproduct of a word of length n add up to 2^n. */
  lemma CoproductTotal<I(!new)>(m: Word<I>)
    ensures Total(CoproductOnBasis(m)) == Pow2(|m|)
  {
    CoproductIsProductOfPrimitives(m);
    CoproductShape(m);
    SumUnitriangular(ProductOfPrimitives(m), |m|);
    TotalCollect(CoproductTerms(m));
  }

  // ---------------------------------------------------------------------
  // Counit and antipode axioms

  lemma SnocEquals<I>(u: Word<I>, x: I, a: Word<I>)
    ensures u + [x] == a <==> a != [] && a[|a| - 1] == x && u == a[..|a| - 1]
  {
    if a != [] && a[|a| - 1] == x && u == a[..|a| - 1] {
      assert a == a[..|a| - 1] + [a[|a| - 1]];
    }
  }

  lemma ConsEquals<I>(x: I, u: Word<I>, a: Word<I>)
    ensures [x] + u == a <==> a != [] && a[0] == x && u == a[1..]
  {
    if a != [] && a[0] == x && u == a[1..] {
      assert a == [a[0]] + a[1..];
    }
  }

  lemma WeightOfTwo<K>(s: (K, int), t: (K, int), k: K)
    ensures Weight([s, t], k) == (if s.0 == k then s.1 else 0) + (if t.0 == k then t.1 else 0)
  {
    var l := [s, t];
    assert l[..1] == [s];
    assert Weight(l, k) == Weight([s], k) + (if t.0 == k then t.1 else 0);
    assert [s][..0] == [];
  }

  lemma MulLeftPrimitive<I>(s: (Pair<I>, int), x: I)
    ensures MulLeft(s, Primitive(x)) == [((s.0.0 + [x], s.0.1), s.1), ((s.0.0, s.0.1 + [x]), s.1)]
  {
    var q := MulLeft(s, Primitive(x));
    assert s.0.0 + [] == s.0.0 && s.0.1 + [] == s.0.1;
    assert q[0] == ((s.0.0 + [x], s.0.1), s.1);
    assert q[1] == ((s.0.0, s.0.1 + [x]), s.1);
  }

  /** Multiplying by g # 1 + 1 # g: the weight of (a, b) comes from (a - g, b)
      when a ends with g and from (a, b - g) when b ends with g. */
  lemma {:induction false} WeightMulPrimitive<I>(p: Terms<I>, x: I, a: Word<I>, b: Word<I>)
    ensures Weight(Mul(p, Primitive(x)), (a, b)) ==
            (if a != [] && a[|a| - 1] == x then Weight(p, (a[..|a| - 1], b)) else 0) +
            (if b != [] && b[|b| - 1] == x then Weight(p, (a, b[..|b| - 1])) else 0)
  {
    if p != [] {
      var n := |p|;
      var p', s := p[..n - 1], p[n - 1];
      WeightMulPrimitive(p', x, a, b);
      var q := MulLeft(s, Primitive(x));
      MulLeftPrimitive(s, x);
      WeightAppend(Mul(p', Primitive(x)), q, (a, b));
      WeightOfTwo(q[0], q[1], (a, b));
      assert q == [q[0], q[1]];
      SnocEquals(s.0.0, x, a);
      SnocEquals(s.0.1, x, b);
    }
  }

  /** Counit on the left: the coefficient of 1 # v in the coproduct of m is 1
      when v == m and 0 otherwise, i.e. (counit # id) coproduct = id. */
  lemma {:induction false} CounitLeft<I>(m: Word<I>, v: Word<I>)
    ensures Weight(ProductOfPrimitives(m), ([], v)) == if v == m then 1 else 0
  {
    if m == [] {
      assert Unit<I>()[..0] == [];
    } else {
      var n := |m|;
      WeightMulPrimitive(ProductOfPrimitives(m[..n - 1]), m[n - 1], [], v);
      if v != [] {
        CounitLeft(m[..n - 1], v[..|v| - 1]);
        if v[..|v| - 1] == m[..n - 1] && v[|v| - 1] == m[n - 1] {
          assert v == m;
        }
      }
    }
  }

  /** Counit on the right: the coefficient of u # 1 in the coproduct of m is 1
      when u == m and 0 otherwise, i.e. (id # counit) coproduct = id. */
  lemma {:induction false} CounitRight<I>(m: Word<I>, u: Word<I>)
    ensures Weight(ProductOfPrimitives(m), (u, [])) == if u == m then 1 else 0
  {
    if m == [] {
      assert Unit<I>()[..0] == [];
    } else {
      var n := |m|;
      WeightMulPrimitive(ProductOfPrimitives(m[..n - 1]), m[n - 1], u, []);
      if u != [] {
        CounitRight(m[..n - 1], u[..|u| - 1]);
        if u[..|u| - 1] == m[..n - 1] && u[|u| - 1] == m[n - 1] {
          assert u == m;
        }
      }
    }
  }

  /** The counit axioms on the coproduct of a basis vector. */
  lemma CoproductCounit<I(!new)>(m: Word<I>, w: Word<I>)
    ensures Coefficient(CoproductOnBasis(m), (OneBasis(), w)) == if w == m then 1 else 0
    ensures Coefficient(CoproductOnBasis(m), (w, OneBasis())) == if w == m then 1 else 0
  {
    CoproductIsProductOfPrimitives(m);
    CounitLeft(m, w);
    CounitRight(m, w);
  }

  /** The running product of primitive coproducts is symmetric: swapping
      the two components of a pair does not change its coefficient. */
  lemma {:induction false} ProductOfPrimitivesSymmetric<I>(m: Word<I>, a: Word<I>, b: Word<I>)
    ensures Weight(ProductOfPrimitives(m), (a, b)) == Weight(ProductOfPrimitives(m), (b, a))
  {
    if m == [] {
      assert Unit<I>()[..0] == [];
    } else {
      var n := |m|;
      var p, x := ProductOfPrimitives(m[..n - 1]), m[n - 1];
      WeightMulPrimitive(p, x, a, b);
      WeightMulPrimitive(p, x, b, a);
      if a != [] {
        ProductOfPrimitivesSymmetric(m[..n - 1], a[..|a| - 1], b);
      }
      if b != [] {
        ProductOfPrimitivesSymmetric(m[..n - 1], a, b[..|b| - 1]);
      }
    }
  }

  /** The coproduct is cocommutative: u # v and v # u have the same
      coefficient in the coproduct of every basis word. */
  lemma CoproductCocommutative<I(!new)>(m: Word<I>, u: Word<I>, v: Word<I>)
    ensures Coefficient(CoproductOnBasis(m), (u, v)) == Coefficient(CoproductOnBasis(m), (v, u))
  {
    CoproductIsProductOfPrimitives(m);
    ProductOfPrimitivesSymmetric(m, u, v);
  }

  /** (antipode # id) followed by the product, term by term: u # v becomes
      (-1)^|u| times the reversal of u followed by v. */
  function AntipodeConvolution<I>(t: Terms<I>): (r: FormalSum<Word<I>>)
    ensures |r| == |t|
    ensures forall i :: 0 <= i < |t| ==> r[i] == (Reverse(t[i].0.0) + t[i].0.1, Signed(|t[i].0.0|, t[i].1))
  {
    seq(|t|, i requires 0 <= i < |t| => (Reverse(t[i].0.0) + t[i].0.1, Signed(|t[i].0.0|, t[i].1)))
  }

  /** Each term of the convolution is what the model's antipode and product
      give: the antipode of u is supported on the reversal of u alone, the
      product of that reversal with v is the word Reverse(u) + v, and c u # v
      goes to c times the antipode's coefficient on that word. */
  lemma AntipodeConvolutionTerm<I(!new)>(u: Word<I>, v: Word<I>, c: int)
    ensures AntipodeOnBasis(u).Keys == {Reverse(u)}
    ensures ProductOnBasis(Reverse(u), v) == Monomial(Reverse(u) + v)
    ensures Collect(AntipodeConvolution([((u, v), c)])) ==
            Term(Reverse(u) + v, c * Coefficient(AntipodeOnBasis(u), Reverse(u)))
  {
    var a := AntipodeOnBasis(u);
    assert Reverse(u) in a;
    forall w | w in a ensures w == Reverse(u) {
      assert Coefficient(a, w) != 0;
    }
    var t := AntipodeConvolution([((u, v), c)]);
    var r := Term(Reverse(u) + v, c * Coefficient(a, Reverse(u)));
    forall w ensures Coefficient(Collect(t), w) == Coefficient(r, w) {
      assert t[..0] == [];
    }
    ReducedExtensional(Collect(t), r);
  }

  lemma AntipodeConvolutionAppend<I>(s: Terms<I>, t: Terms<I>)
    ensures AntipodeConvolution(s + t) == AntipodeConvolution(s) + AntipodeConvolution(t)
  {
  }

  lemma SignedSuccessor(n: nat, c: int)
    ensures Signed(n + 1, c) == -Signed(n, c)
  {
    assert (n + 1) % 2 == 1 <==> n % 2 == 0;
  }

  lemma ConvolutionOfMulLeftPrimitive<I>(s: (Pair<I>, int), x: I)
    ensures AntipodeConvolution(MulLeft(s, Primitive(x))) ==
            [([x] + (Reverse(s.0.0) + s.0.1), -Signed(|s.0.0|, s.1)),
             ((Reverse(s.0.0) + s.0.1) + [x], Signed(|s.0.0|, s.1))]
  {
    var q := MulLeft(s, Primitive(x));
    MulLeftPrimitive(s, x);
    var c := AntipodeConvolution(q);
    assert c[0] == (Reverse(s.0.0 + [x]) + s.0.1, Signed(|s.0.0 + [x]|, s.1)) by {
      assert q[0] == ((s.0.0 + [x], s.0.1), s.1);
    }
    assert c[1] == (Reverse(s.0.0) + (s.0.1 + [x]), Signed(|s.0.0|, s.1)) by {
      assert q[1] == ((s.0.0, s.0.1 + [x]), s.1);
    }
    ReverseAppend(s.0.0, [x]);
    assert Reverse([x]) == [x];
    assert |s.0.0 + [x]| == |s.0.0| + 1;
    SignedSuccessor(|s.0.0|, s.1);
    assert Reverse(s.0.0) + (s.0.1 + [x]) == (Reverse(s.0.0) + s.0.1) + [x];
    assert ([x] + Reverse(s.0.0)) + s.0.1 == [x] + (Reverse(s.0.0) + s.0.1);
  }

  /** Multiplying by g # 1 + 1 # g: the convolution gains g on the right with
      the old sign and g on the left with the opposite sign. */
  lemma {:induction false} ConvolutionMulPrimitive<I>(p: Terms<I>, x: I, w: Word<I>)
    ensures Weight(AntipodeConvolution(Mul(p, Primitive(x))), w) ==
            (if w != [] && w[|w| - 1] == x then Weight(AntipodeConvolution(p), w[..|w| - 1]) else 0) -
            (if w != [] && w[0] == x then Weight(AntipodeConvolution(p), w[1..]) else 0)
  {
    if p != [] {
      var n := |p|;
      var p', s := p[..n - 1], p[n - 1];
      assert p == p' + [s];
      ConvolutionMulPrimitive(p', x, w);
      ConvolutionLastTerm(p', s, x, w);
      var r := Reverse(s.0.0) + s.0.1;
      ConsEquals(x, r, w);
      SnocEquals(r, x, w);
      if w != [] {
        ConvolutionWeightLast(p, w[..|w| - 1]);
        ConvolutionWeightLast(p, w[1..]);
      }
    }
  }

  /** The convolution of the terms contributed by the last term `s`. */
  lemma ConvolutionLastTerm<I>(p': Terms<I>, s: (Pair<I>, int), x: I, w: Word<I>)
    ensures Weight(AntipodeConvolution(Mul(p' + [s], Primitive(x))), w) ==
            Weight(AntipodeConvolution(Mul(p', Primitive(x))), w) +
            (if [x] + (Reverse(s.0.0) + s.0.1) == w then -Signed(|s.0.0|, s.1) else 0) +
            (if (Reverse(s.0.0) + s.0.1) + [x] == w then Signed(|s.0.0|, s.1) else 0)
  {
    var p := p' + [s];
    assert p[..|p| - 1] == p';
    var q := MulLeft(s, Primitive(x));
    AntipodeConvolutionAppend(Mul(p', Primitive(x)), q);
    WeightAppend(AntipodeConvolution(Mul(p', Primitive(x))), AntipodeConvolution(q), w);
    var cq := AntipodeConvolution(q);
    ConvolutionOfMulLeftPrimitive(s, x);
    WeightOfTwo(cq[0], cq[1], w);
  }

  /** The weight of `w` in the convolution of `p`, peeling off its last term. */
  lemma ConvolutionWeightLast<I>(p: Terms<I>, w: Word<I>)
    requires p != []
    ensures Weight(AntipodeConvolution(p), w) ==
            Weight(AntipodeConvolution(p[..|p| - 1]), w) +
            (if Reverse(p[|p| - 1].0.0) + p[|p| - 1].0.1 == w then Signed(|p[|p| - 1].0.0|, p[|p| - 1].1) else 0)
  {
    ConvolutionPrefix(p);
  }

  lemma ConvolutionPrefix<I>(p: Terms<I>)
    requires p != []
    ensures AntipodeConvolution(p)[..|p| - 1] == AntipodeConvolution(p[..|p| - 1])
  {
    var c, c' := AntipodeConvolution(p), AntipodeConvolution(p[..|p| - 1]);
    assert forall i :: 0 <= i < |p| - 1 ==> c[..|p| - 1][i] == c'[i];
  }

  lemma ConvolutionOfUnit<I>(w: Word<I>)
    ensures Weight(AntipodeConvolution(Unit<I>()), w) == if |w| == 0 then 1 else 0
  {
    var t: FormalSum<Word<I>> := AntipodeConvolution(Unit());
    var u: Terms<I> := Unit();
    assert Reverse<I>([]) == [];
    assert t[0] == (Reverse(u[0].0.0) + u[0].0.1, Signed(|u[0].0.0|, u[0].1));
    assert t[0] == ([], 1);
    assert t[..0] == [];
  }

  /** The antipode axiom, on the list of terms: (antipode # id) followed by the
      product sends the coproduct of m to the counit of m times the unit. */
  lemma {:induction false} AntipodeAxiomWeight<I>(m: Word<I>, w: Word<I>)
    ensures Weight(AntipodeConvolution(ProductOfPrimitives(m)), w) == if |m| == 0 && |w| == 0 then 1 else 0
  {
    if |m| == 0 {
      assert m == [];
      ConvolutionOfUnit<I>(w);
    } else {
      var n := |m|;
      ConvolutionMulPrimitive(ProductOfPrimitives(m[..n - 1]), m[n - 1], w);
      if |w| != 0 {
        AntipodeAxiomWeight(m[..n - 1], w[..|w| - 1]);
        AntipodeAxiomWeight(m[..n - 1], w[1..]);
      }
    }
  }

  /** The antipode axiom on basis vectors: the product of (antipode # id)
      applied to the coproduct of m is counit(m) times the unit. */
  lemma AntipodeAxiom<I(!new)>(m: Word<I>)
    ensures Collect(AntipodeConvolution(CoproductTerms(m))) == BaseRingLift(Counit(Monomial(m)))
  {
    CoproductIsProductOfPrimitives(m);
    CounitOfMonomial(m);
    forall w ensures Coefficient(Collect(AntipodeConvolution(CoproductTerms(m))), w) ==
                     Coefficient(BaseRingLift<I>(Counit(Monomial(m))), w) {
      AntipodeAxiomWeight(m, w);
    }
    ReducedExtensional(Collect(AntipodeConvolution(CoproductTerms(m))), BaseRingLift<I>(Counit(Monomial(m))));
  }

  // ---------------------------------------------------------------------
  // The antipode axiom on the other side

  /** (id # antipode) followed by the product, term by term: u # v becomes
      (-1)^|v| times u followed by the reversal of v. */
  function AntipodeConvolutionRight<I>(t: Terms<I>): (r: FormalSum<Word<I>>)
    ensures |r| == |t|
    ensures forall i :: 0 <= i < |t| ==> r[i] == (t[i].0.0 + Reverse(t[i].0.1), Signed(|t[i].0.1|, t[i].1))
  {
    seq(|t|, i requires 0 <= i < |t| => (t[i].0.0 + Reverse(t[i].0.1), Signed(|t[i].0.1|, t[i].1)))
  }

  /** Each term of the right convolution is what the model's product and
      antipode give: c u # v goes to c times the antipode's coefficient on the
      reversal of v, on the word u + Reverse(v). */
  lemma AntipodeConvolutionRightTerm<I(!new)>(u: Word<I>, v: Word<I>, c: int)
    ensures AntipodeOnBasis(v).Keys == {Reverse(v)}
    ensures ProductOnBasis(u, Reverse(v)) == Monomial(u + Reverse(v))
    ensures Collect(AntipodeConvolutionRight([((u, v), c)])) ==
            Term(u + Reverse(v), c * Coefficient(AntipodeOnBasis(v), Reverse(v)))
  {
    var a := AntipodeOnBasis(v);
    assert Reverse(v) in a;
    forall w | w in a ensures w == Reverse(v) {
      assert Coefficient(a, w) != 0;
    }
    var t := AntipodeConvolutionRight([((u, v), c)]);
    var r := Term(u + Reverse(v), c * Coefficient(a, Reverse(v)));
    forall w ensures Coefficient(Collect(t), w) == Coefficient(r, w) {
      assert t[..0] == [];
    }
    ReducedExtensional(Collect(t), r);
  }

  /** A term times g # 1 + 1 # g gives two terms that the right convolution
      sends to the same word with opposite signs. */
  lemma ConvolutionRightOfMulLeftPrimitive<I>(s: (Pair<I>, int), x: I)
    ensures AntipodeConvolutionRight(MulLeft(s, Primitive(x))) ==
            [(s.0.0 + [x] + Reverse(s.0.1), Signed(|s.0.1|, s.1)),
             (s.0.0 + [x] + Reverse(s.0.1), -Signed(|s.0.1|, s.1))]
  {
    var q := MulLeft(s, Primitive(x));
    MulLeftPrimitive(s, x);
    var c := AntipodeConvolutionRight(q);
    assert c[0] == (s.0.0 + [x] + Reverse(s.0.1), Signed(|s.0.1|, s.1)) by {
      assert q[0] == ((s.0.0 + [x], s.0.1), s.1);
    }
    assert c[1] == (s.0.0 + Reverse(s.0.1 + [x]), Signed(|s.0.1 + [x]|, s.1)) by {
      assert q[1] == ((s.0.0, s.0.1 + [x]), s.1);
    }
    ReverseAppend(s.0.1, [x]);
    assert Reverse([x]) == [x];
    assert |s.0.1 + [x]| == |s.0.1| + 1;
    SignedSuccessor(|s.0.1|, s.1);
    ConcatAssociative(s.0.0, [x], Reverse(s.0.1));
  }

  /** After a primitive factor the right convolution cancels term by term:
      every word gets coefficient 0. */
  lemma {:induction false} ConvolutionRightMulPrimitive<I>(p: Terms<I>, x: I, w: Word<I>)
    ensures Weight(AntipodeConvolutionRight(Mul(p, Primitive(x))), w) == 0
  {
    if p != [] {
      var n := |p|;
      var p', s := p[..n - 1], p[n - 1];
      ConvolutionRightMulPrimitive(p', x, w);
      var q := MulLeft(s, Primitive(x));
      assert AntipodeConvolutionRight(Mul(p, Primitive(x))) ==
             AntipodeConvolutionRight(Mul(p', Primitive(x))) + AntipodeConvolutionRight(q);
      WeightAppend(AntipodeConvolutionRight(Mul(p', Primitive(x))), AntipodeConvolutionRight(q), w);
      var cq := AntipodeConvolutionRight(q);
      ConvolutionRightOfMulLeftPrimitive(s, x);
      WeightOfTwo(cq[0], cq[1], w);
    }
  }

  /** The other antipode axiom, on the list of terms: (id # antipode)
      followed by the product sends the coproduct of m to the counit of m
      times the unit. */
  lemma AntipodeAxiomRightWeight<I>(m: Word<I>, w: Word<I>)
    ensures Weight(AntipodeConvolutionRight(ProductOfPrimitives(m)), w) == if |m| == 0 && |w| == 0 then 1 else 0
  {
    if |m| == 0 {
      var t: FormalSum<Word<I>> := AntipodeConvolutionRight(Unit());
      var u: Terms<I> := Unit();
      assert Reverse<I>([]) == [];
      assert t[0] == (u[0].0.0 + Reverse(u[0].0.1), Signed(|u[0].0.1|, u[0].1));
      assert t[..0] == [];
    } else {
      ConvolutionRightMulPrimitive(ProductOfPrimitives(m[..|m| - 1]), m[|m| - 1], w);
    }
  }

  /** The antipode axiom on the other side: the product of (id # antipode)
      applied to the coproduct of m is counit(m) times the unit. */
  lemma AntipodeAxiomRight<I(!new)>(m: Word<I>)
    ensures Collect(AntipodeConvolutionRight(CoproductTerms(m))) == BaseRingLift(Counit(Monomial(m)))
  {
    CoproductIsProductOfPrimitives(m);
    CounitOfMonomial(m);
    forall w ensures Coefficient(Collect(AntipodeConvolutionRight(CoproductTerms(m))), w) ==
                     Coefficient(BaseRingLift<I>(Counit(Monomial(m))), w) {
      AntipodeAxiomRightWeight(m, w);
    }
    ReducedExtensional(Collect(AntipodeConvolutionRight(CoproductTerms(m))), BaseRingLift<I>(Counit(Monomial(m))));
  }
}
