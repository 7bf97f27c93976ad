/** Maps between tensor algebras induced letter by letter by a map between
    their base modules: the tensor algebra functor applied to a module morphism,
    and the coercion from a tensor algebra whose base module coerces into this
    one. Both send a basis word k1...kn to the tensor constructor of the images
    of its letters, and extend linearly. */
module WordMaps {
  import opened Words
  import opened Linear
  import opened TensorAlgebra

  /** The images of the letters of `m`, in order (`[f(monomial(k)) for k in m]`);
      with `f` sending letters to letters, the renamed word. */
  function LetterImages<J, V>(f: J -> V, m: Word<J>): (images: seq<V>)
    ensures |images| == |m|
    ensures forall i :: 0 <= i < |m| ==> images[i] == f(m[i])
  {
    seq(|m|, i requires 0 <= i < |m| => f(m[i]))
  }

  /** The image of the basis word `m`: homogeneous of the degree of `m`. */
  function MapOnBasis<I(==,!new), J(==)>(f: J -> Vector<I>, m: Word<J>): (r: Element<I>)
    ensures Reduced(r)
    ensures forall w :: w in r ==> |w| == |m|
  {
    TensorProduct(LetterImages(f, WordList(m)))
  }

  /** The image of a basis word of degree n is homogeneous of degree n. */
  lemma MapOnBasisHomogeneous<I(!new), J>(f: J -> Vector<I>, m: Word<J>)
    ensures forall w :: w in MapOnBasis(f, m) ==> DegreeOnBasis(w) == DegreeOnBasis(m)
  {
  }

  /** The coefficient of `w` in the image of `m` is the product over positions
      of the coefficient of w[i] in the image of m[i]. */
  lemma MapOnBasisCoefficient<I(!new), J>(f: J -> Vector<I>, m: Word<J>, w: Word<I>)
    ensures Coefficient(MapOnBasis(f, m), w) ==
            if |w| == |m| then CoefficientProduct(LetterImages(f, m), w) else 0
  {
  }

  /** The product over positions splits at any cut of the factors. */
  lemma {:induction false} CoefficientProductAppend<I>(e1: seq<Vector<I>>, e2: seq<Vector<I>>, u: Word<I>, v: Word<I>)
    requires |u| == |e1| && |v| == |e2|
    ensures CoefficientProduct(e1 + e2, u + v) == CoefficientProduct(e1, u) * CoefficientProduct(e2, v)
    decreases |e2|
  {
    if e2 == [] {
      assert e1 + e2 == e1 && u + v == u;
    } else {
      var n := |e2|;
      assert (e1 + e2)[..|e1 + e2| - 1] == e1 + e2[..n - 1];
      assert (u + v)[..|u + v| - 1] == u + v[..n - 1];
      CoefficientProductAppend(e1, e2[..n - 1], u, v[..n - 1]);
    }
  }

  /** The images of two consecutive letter blocks. */
  lemma LetterImagesAppend<J, V>(f: J -> V, a: Word<J>, b: Word<J>)
    ensures LetterImages(f, a + b) == LetterImages(f, a) + LetterImages(f, b)
  {
  }

  /** The word map is multiplicative: the coefficient of u v in the image of
      a b is the coefficient of u in the image of a times that of v in the
      image of b. */
  lemma MapOnBasisMultiplicative<I(!new), J>(f: J -> Vector<I>, a: Word<J>, b: Word<J>, u: Word<I>, v: Word<I>)
    requires |u| == |a| && |v| == |b|
    ensures Coefficient(MapOnBasis(f, a + b), u + v) == Coefficient(MapOnBasis(f, a), u) * Coefficient(MapOnBasis(f, b), v)
  {
    LetterImagesAppend(f, a, b);
    CoefficientProductAppend(LetterImages(f, a), LetterImages(f, b), u, v);
    MapOnBasisCoefficient(f, a + b, u + v);
    MapOnBasisCoefficient(f, a, u);
    MapOnBasisCoefficient(f, b, v);
  }

  /** When every letter goes to a single basis vector, the product over
      positions is 1 on the renamed word and 0 elsewhere. */
  lemma {:induction false} CoefficientProductOfLetters<I, J>(f: J -> Vector<I>, g: J -> I, m: Word<J>, w: Word<I>)
    requires forall k :: f(k) == map[g(k) := 1]
    requires |w| == |m|
    ensures CoefficientProduct(LetterImages(f, m), w) == if w == LetterImages(g, m) then 1 else 0
  {
    if m != [] {
      var n := |m|;
      var images := LetterImages(f, m);
      assert images[..n - 1] == LetterImages(f, m[..n - 1]);
      CoefficientProductOfLetters(f, g, m[..n - 1], w[..n - 1]);
      assert LetterImages(g, m)[..n - 1] == LetterImages(g, m[..n - 1]);
      if w[..n - 1] == LetterImages(g, m[..n - 1]) && w[n - 1] == g(m[n - 1]) {
        assert w == LetterImages(g, m);
      }
    }
  }

  /** A map sending each index to a single basis vector sends a word to the
      monomial of its renamed word. */
  lemma MapOnBasisOfLetters<I(!new), J>(f: J -> Vector<I>, g: J -> I, m: Word<J>)
    requires forall k :: f(k) == map[g(k) := 1]
    ensures MapOnBasis(f, m) == Monomial(LetterImages(g, m))
  {
    forall w ensures Coefficient(MapOnBasis(f, m), w) == Coefficient(Monomial(LetterImages(g, m)), w) {
      if |w| == |m| {
        CoefficientProductOfLetters(f, g, m, w);
      }
    }
    ReducedExtensional(MapOnBasis(f, m), Monomial(LetterImages(g, m)));
  }

  /** The functor sends the identity morphism to the identity. */
  lemma MapOnBasisIdentity<I(!new)>(f: I -> Vector<I>, m: Word<I>)
    requires forall k :: f(k) == map[k := 1]
    ensures MapOnBasis(f, m) == Monomial(m)
  {
    MapOnBasisOfLetters(f, k => k, m);
    assert LetterImages(k => k, m) == m;
  }

  /** On a one-letter word the map is the image of that letter, on one-letter words. */
  lemma MapOnBasisLetter<I(!new), J>(f: J -> Vector<I>, k: J)
    requires Reduced(f(k))
    ensures MapOnBasis(f, [k]) == Singletons(f(k))
  {
    assert LetterImages(f, [k]) == [f(k)];
    TensorProductSingle(f(k));
  }

  /** `c` times an element. */
  function Scale<I(==,!new)>(c: int, x: Element<I>): (r: Element<I>)
    ensures Reduced(r)
    ensures forall w :: Coefficient(r, w) == c * Coefficient(x, w)
  {
    Reduce(map w | w in x :: c * x[w])
  }

  /** The linear extension of the map to a list of terms c * m. */
  function Apply<I(==,!new), J(==)>(f: J -> Vector<I>, t: FormalSum<Word<J>>): (r: Element<I>)
    ensures Reduced(r)
  {
    if t == [] then map[] else Add(Apply(f, t[..|t| - 1]), Scale(t[|t| - 1].1, MapOnBasis(f, t[|t| - 1].0)))
  }

  /** The linear extension is linear: the image of two lists of terms is the sum of their images. */
  lemma {:induction false} ApplyAppend<I(!new), J>(f: J -> Vector<I>, s: FormalSum<Word<J>>, t: FormalSum<Word<J>>)
    ensures Apply(f, s + t) == Add(Apply(f, s), Apply(f, t))
    decreases |t|
  {
    if t == [] {
      assert s + t == s;
      AddZero(Apply(f, s));
    } else {
      var n := |t|;
      var last := Scale(t[n - 1].1, MapOnBasis(f, t[n - 1].0));
      ApplySnoc(f, s, t);
      ApplyAppend(f, s, t[..n - 1]);
      AddAssociative(Apply(f, s), Apply(f, t[..n - 1]), last);
    }
  }

  lemma ApplySnoc<I(!new), J>(f: J -> Vector<I>, s: FormalSum<Word<J>>, t: FormalSum<Word<J>>)
    requires t != []
    ensures Apply(f, s + t) == Add(Apply(f, s + t[..|t| - 1]), Scale(t[|t| - 1].1, MapOnBasis(f, t[|t| - 1].0)))
  {
    AppendButLast(s, t);
  }

  /** The image of a single term c * m is c times the image of m. */
  lemma ApplySingle<I(!new), J>(f: J -> Vector<I>, m: Word<J>, c: int)
    ensures Apply(f, [(m, c)]) == Scale(c, MapOnBasis(f, m))
  {
    var t: FormalSum<Word<J>> := [(m, c)];
    assert t[..0] == [];
    var x := Scale(c, MapOnBasis(f, m));
    assert Apply(f, t) == Add(map[], x);
    AddZero(x);
  }

  /** The coefficient of `w` in the image of each basis word, as a weight on words. */
  function ImageCoefficient<I(==,!new), J(==)>(f: J -> Vector<I>, w: Word<I>): Word<J> -> int
  {
    (m: Word<J>) => Coefficient(MapOnBasis(f, m), w)
  }

  /** A coefficient of the image of a term list grows, with one more term, by
      that term's coefficient times the coefficient in its basis image. */
  lemma CoefficientApplySnoc<I(!new), J>(f: J -> Vector<I>, t: FormalSum<Word<J>>, w: Word<I>)
    requires t != []
    ensures Coefficient(Apply(f, t), w)
         == Coefficient(Apply(f, t[..|t| - 1]), w) + t[|t| - 1].1 * Coefficient(MapOnBasis(f, t[|t| - 1].0), w)
  {
  }

  /** A coefficient of the image of a term list pairs the list with that coefficient of the basis images. */
  lemma {:induction false} CoefficientApply<I(!new), J>(f: J -> Vector<I>, t: FormalSum<Word<J>>, w: Word<I>)
    ensures Coefficient(Apply(f, t), w) == Pairing(t, ImageCoefficient(f, w))
  {
    if t != [] {
      var front, last := t[..|t| - 1], t[|t| - 1];
      var g := ImageCoefficient(f, w);
      assert g(last.0) == Coefficient(MapOnBasis(f, last.0), w);
      assert Pairing(t, g) == Pairing(front, g) + last.1 * g(last.0);
      CoefficientApply(f, front, w);
      CoefficientApplySnoc(f, t, w);
    }
  }

  /** The linear extension is a map on elements: term lists that add up to
      the same element have the same image. */
  lemma ApplyCollect<I(!new), J(!new)>(f: J -> Vector<I>, s: FormalSum<Word<J>>, t: FormalSum<Word<J>>)
    requires Collect(s) == Collect(t)
    ensures Apply(f, s) == Apply(f, t)
  {
    forall w ensures Coefficient(Apply(f, s), w) == Coefficient(Apply(f, t), w) {
      CoefficientApply(f, s, w);
      CoefficientApply(f, t, w);
      PairingCollect(s, t, ImageCoefficient(f, w));
    }
    ReducedExtensional(Apply(f, s), Apply(f, t));
  }

  /** The image of a two-letter word is the tensor product of the images of its letters. */
  lemma MapOnBasisTwoLetters<I(!new), J>(f: J -> Vector<I>, k1: J, k2: J)
    ensures MapOnBasis(f, [k1, k2]) == TensorProduct([f(k1), f(k2)])
  {
    assert LetterImages(f, [k1, k2]) == [f(k1), f(k2)];
  }

  /** c times a basis vector is the term c * k. */
  lemma ScaleMonomial<I(!new)>(c: int, k: Word<I>)
    ensures Scale(c, Monomial(k)) == Term(k, c)
  {
    ReducedExtensional(Scale(c, Monomial(k)), Term(k, c));
  }

  /** Once a reduced element is itself. */
  lemma ScaleOne<I(!new)>(x: Element<I>)
    requires Reduced(x)
    ensures Scale(1, x) == x
  {
    ReducedExtensional(Scale(1, x), x);
  }

  /** The renaming of the coercion example: index k goes to index 2k. */
  function Double(k: int): int
  {
    2 * k
  }

  lemma DoubleWord()
    ensures LetterImages(Double, [1, 2, 2, 1, 1]) == [2, 4, 4, 2, 2]
  {
  }

  /** `TAD(3 * TAC([1, 2, 2, 1, 1])) == 3*B[2] # B[4] # B[4] # B[2] # B[2]`, for
      the coercion whose map on letters sends index k to index 2k. */
  lemma CoercionExample(f: int -> Vector<int>)
    requires forall k :: f(k) == map[2 * k := 1]
    ensures Apply(f, [([1, 2, 2, 1, 1], 3)]) == Term([2, 4, 4, 2, 2], 3)
  {
    DoubleWord();
    MapOnBasisOfLetters(f, Double, [1, 2, 2, 1, 1]);
    ApplySingle(f, [1, 2, 2, 1, 1], 3);
    ScaleMonomial(3, [2, 4, 4, 2, 2]);
  }

  /** The coefficient of a two-letter word in the tensor product of 2a + b
      and a + b + c, for distinct indices a, b, c. */
  lemma FunctorExampleCoefficient<I>(a: I, b: I, c: I, w: Word<I>)
    requires a != b && b != c && a != c
    requires |w| == 2
    ensures Coefficient(map[a := 2, b := 1], w[0]) * Coefficient(map[a := 1, b := 1, c := 1], w[1]) ==
            Coefficient(map[[a, a] := 2, [a, b] := 2, [a, c] := 2, [b, a] := 1, [b, b] := 1, [b, c] := 1], w)
  {
    assert w == [w[0], w[1]];
  }

  /** The words of 2aa + 2ab + 2ac + ba + bb + bc have two letters. */
  lemma FunctorExampleWords<I>(a: I, b: I, c: I)
    ensures forall w :: w in map[[a, a] := 2, [a, b] := 2, [a, c] := 2, [b, a] := 1, [b, b] := 1, [b, c] := 1] ==> |w| == 2
  {
  }

  /** The coefficient of one word in the tensor product of 2a + b and a + b + c. */
  lemma FunctorExamplePoint<I(!new)>(a: I, b: I, c: I, w: Word<I>)
    requires a != b && b != c && a != c
    ensures Coefficient(TensorProduct([map[a := 2, b := 1], map[a := 1, b := 1, c := 1]]), w) ==
            Coefficient(map[[a, a] := 2, [a, b] := 2, [a, c] := 2, [b, a] := 1, [b, b] := 1, [b, c] := 1], w)
  {
    if |w| == 2 {
      CoefficientProductTwo(map[a := 2, b := 1], map[a := 1, b := 1, c := 1], w);
      FunctorExampleCoefficient(a, b, c, w);
    } else {
      FunctorExampleWords(a, b, c);
    }
  }

  /** The tensor product of 2a + b and a + b + c. */
  lemma FunctorExampleProduct<I(!new)>(a: I, b: I, c: I)
    requires a != b && b != c && a != c
    ensures TensorProduct([map[a := 2, b := 1], map[a := 1, b := 1, c := 1]]) ==
            map[[a, a] := 2, [a, b] := 2, [a, c] := 2, [b, a] := 1, [b, b] := 1, [b, c] := 1]
  {
    FunctorExampleAllPoints(a, b, c);
    FunctorExampleReduced(a, b, c);
    ReducedExtensional(TensorProduct([map[a := 2, b := 1], map[a := 1, b := 1, c := 1]]),
                       map[[a, a] := 2, [a, b] := 2, [a, c] := 2, [b, a] := 1, [b, b] := 1, [b, c] := 1]);
  }

  lemma FunctorExampleAllPoints<I(!new)>(a: I, b: I, c: I)
    requires a != b && b != c && a != c
    ensures forall w :: Coefficient(TensorProduct([map[a := 2, b := 1], map[a := 1, b := 1, c := 1]]), w) ==
                        Coefficient(map[[a, a] := 2, [a, b] := 2, [a, c] := 2, [b, a] := 1, [b, b] := 1, [b, c] := 1], w)
  {
    forall w ensures Coefficient(TensorProduct([map[a := 2, b := 1], map[a := 1, b := 1, c := 1]]), w) ==
                     Coefficient(map[[a, a] := 2, [a, b] := 2, [a, c] := 2, [b, a] := 1, [b, b] := 1, [b, c] := 1], w) {
      FunctorExamplePoint(a, b, c, w);
    }
  }

  lemma FunctorExampleReduced<I>(a: I, b: I, c: I)
    ensures Reduced(map[[a, a] := 2, [a, b] := 2, [a, c] := 2, [b, a] := 1, [b, b] := 1, [b, c] := 1])
  {
  }

  /** `Tphi(G['x'] * G['y']) == 2 aa + 2 ab + 2 ac + ba + bb + bc`, for the
      morphism sending x to 2a + b and y to a + b + c. */
  lemma FunctorExample(f: char -> Vector<char>)
    requires f('x') == map['a' := 2, 'b' := 1] && f('y') == map['a' := 1, 'b' := 1, 'c' := 1]
    ensures MapOnBasis(f, ['x', 'y']) ==
            map[['a', 'a'] := 2, ['a', 'b'] := 2, ['a', 'c'] := 2, ['b', 'a'] := 1, ['b', 'b'] := 1, ['b', 'c'] := 1]
  {
    MapOnBasisTwoLetters(f, 'x', 'y');
    FunctorExampleProduct('a', 'b', 'c');
  }

  /** x + y goes to the sum of the images of the two letters. */
  lemma FunctorSumImage<I(!new), J>(f: J -> Vector<I>, x: J, y: J)
    requires Reduced(f(x)) && Reduced(f(y))
    ensures Apply(f, [([x], 1), ([y], 1)]) == Add(Singletons(f(x)), Singletons(f(y)))
  {
    var t: FormalSum<Word<J>> := [([x], 1), ([y], 1)];
    assert t == [([x], 1)] + [([y], 1)];
    ApplyAppend(f, [([x], 1)], [([y], 1)]);
    ApplySingle(f, [x], 1);
    ApplySingle(f, [y], 1);
    MapOnBasisLetter(f, x);
    MapOnBasisLetter(f, y);
    ScaleOne(Singletons(f(x)));
    ScaleOne(Singletons(f(y)));
  }

  /** 2a + b on one-letter words. */
  lemma FunctorSumLetterX<I(!new)>(a: I, b: I)
    requires a != b
    ensures Singletons(map[a := 2, b := 1]) == map[[a] := 2, [b] := 1]
  {
    var sx, ex := Singletons(map[a := 2, b := 1]), map[[a] := 2, [b] := 1];
    forall w ensures Coefficient(sx, w) == Coefficient(ex, w) {
      if |w| == 1 {
        assert w == [w[0]];
      }
    }
    ReducedExtensional(sx, ex);
  }

  /** a + b + c on one-letter words. */
  lemma FunctorSumLetterY<I(!new)>(a: I, b: I, c: I)
    requires a != b && b != c && a != c
    ensures Singletons(map[a := 1, b := 1, c := 1]) == map[[a] := 1, [b] := 1, [c] := 1]
  {
    var sy, ey := Singletons(map[a := 1, b := 1, c := 1]), map[[a] := 1, [b] := 1, [c] := 1];
    forall w ensures Coefficient(sy, w) == Coefficient(ey, w) {
      if |w| == 1 {
        assert w == [w[0]];
      }
    }
    ReducedExtensional(sy, ey);
  }

  /** The expected sum of the images of x and y. */
  lemma FunctorSumValue<I(!new)>(a: I, b: I, c: I)
    requires a != b && b != c && a != c
    ensures Add(Singletons(map[a := 2, b := 1]), Singletons(map[a := 1, b := 1, c := 1])) ==
            map[[a] := 3, [b] := 2, [c] := 1]
  {
    FunctorSumLetterX(a, b);
    FunctorSumLetterY(a, b, c);
    FunctorSumPoints(a, b, c);
    FunctorSumReduced(a, b, c);
    ReducedExtensional(Add(map[[a] := 2, [b] := 1], map[[a] := 1, [b] := 1, [c] := 1]),
                       map[[a] := 3, [b] := 2, [c] := 1]);
  }

  lemma FunctorSumPoints<I(!new)>(a: I, b: I, c: I)
    requires a != b && b != c && a != c
    ensures forall w :: Coefficient(Add(map[[a] := 2, [b] := 1], map[[a] := 1, [b] := 1, [c] := 1]), w) ==
                        Coefficient(map[[a] := 3, [b] := 2, [c] := 1], w)
  {
  }

  lemma FunctorSumReduced<I>(a: I, b: I, c: I)
    ensures Reduced(map[[a] := 3, [b] := 2, [c] := 1])
  {
  }

  /** `Tphi(sum(G)) == 3a + 2b + c`, for the same morphism. */
  lemma FunctorSumExample(f: char -> Vector<char>)
    requires f('x') == map['a' := 2, 'b' := 1] && f('y') == map['a' := 1, 'b' := 1, 'c' := 1]
    ensures Apply(f, [(['x'], 1), (['y'], 1)]) == map[['a'] := 3, ['b'] := 2, ['c'] := 1]
  {
    FunctorSumImage(f, 'x', 'y');
    FunctorSumValue('a', 'b', 'c');
  }
}
