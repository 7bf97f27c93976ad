/** The tensor algebra T(M) of a module M with basis indexed by I.

    Its basis is indexed by the words over I (the free monoid on I); an element
    is a dictionary from words to integer coefficients. The product of two basis
    vectors is the basis vector of the concatenated word, the degree of a word
    is its length, the unit is the empty word, the counit reads the coefficient
    of the empty word and the antipode reverses a word with sign (-1)^length. */
module TensorAlgebra {
  import opened Wrappers
  import opened Words
  import opened Linear

  /** A basis index of T(M): a word over the index set of M. */
  type Word<I> = seq<I>

  /** An element of T(M). */
  type Element<I(==)> = map<Word<I>, int>

  /** An element of the base module M. */
  type Vector<I(==)> = map<I, int>

  /** The generator of the free monoid for index `i`: the one-letter word. */
  function Gen<I>(i: I): (w: Word<I>)
    ensures |w| == 1 && w[0] == i
  {
    [i]
  }

  /** The word a free-monoid element spells out (`to_word_list()`), read off
      its stored run-length form. */
  function WordList<I(==)>(m: Word<I>): (w: Word<I>)
    ensures w == m
  {
    Expand(Compress(m))
  }

  /** The product of a list of monoid elements (`FM.prod`). A product of n
      generators has degree n, and every factor's letters are counted. */
  function Flatten<I>(ws: seq<Word<I>>): (w: Word<I>)
    ensures (forall i :: 0 <= i < |ws| ==> |ws[i]| == 1) ==> |w| == |ws|
    ensures forall i :: 0 <= i < |ws| ==> |ws[i]| <= |w|
  {
    if ws == [] then [] else Flatten(ws[..|ws| - 1]) + ws[|ws| - 1]
  }

  /** `FM.prod` is a monoid homomorphism: the product over two lists put
      together is the product of the two products. */
  lemma {:induction false} FlattenAppend<I>(us: seq<Word<I>>, vs: seq<Word<I>>)
    ensures Flatten(us + vs) == Flatten(us) + Flatten(vs)
    decreases |vs|
  {
    if vs == [] {
      assert us + vs == us;
    } else {
      var n := |vs|;
      AppendButLast(us, vs);
      FlattenAppend(us, vs[..n - 1]);
      ConcatAssociative(Flatten(us), Flatten(vs[..n - 1]), vs[n - 1]);
    }
  }

  /** The product of the generators of a list of indices is the list itself. */
  lemma {:induction false} FlattenGens<I>(xs: seq<I>)
    ensures Flatten(seq(|xs|, i requires 0 <= i < |xs| => Gen(xs[i]))) == xs
  {
    var gens := seq(|xs|, i requires 0 <= i < |xs| => Gen(xs[i]));
    if xs != [] {
      var init := xs[..|xs| - 1];
      assert gens[..|gens| - 1] == seq(|init|, i requires 0 <= i < |init| => Gen(init[i]));
      FlattenGens(init);
      assert init + [xs[|xs| - 1]] == xs;
    }
  }

  // ---------------------------------------------------------------------
  // Grading, unit, product, counit

  /** The degree of a basis word: the length of the monoid element, that is
      the sum of the exponents of its runs. */
  function DegreeOnBasis<I(==)>(m: Word<I>): (d: nat)
    ensures d == |m|
  {
    Length(Compress(m))
  }

  /** The empty word, which indexes the 1 of the algebra. */
  function OneBasis<I>(): (w: Word<I>)
    ensures |w| == 0
  {
    []
  }

  /** The unit element 1 of T(M): the lift of the scalar 1, so it has counit
      1 and nothing outside degree 0. */
  function One<I(==,!new)>(): (r: Element<I>)
    ensures r == BaseRingLift(1)
    ensures Counit(r) == 1
    ensures forall w :: w in r ==> DegreeOnBasis(w) == 0
  {
    Monomial(OneBasis())
  }

  /** The product of the basis vectors indexed by `a` and `b`. */
  function ProductOnBasis<I(==,!new)>(a: Word<I>, b: Word<I>): (r: Element<I>)
    ensures forall w :: Coefficient(r, w) ==
                       if |w| == |a| + |b| && w[..|a|] == a && w[|a|..] == b then 1 else 0
  {
    assert forall w :: |w| == |a| + |b| && w[..|a|] == a && w[|a|..] == b <==> w == a + b by {
      forall w | |w| == |a| + |b| && w[..|a|] == a && w[|a|..] == b ensures w == a + b {
        assert w == w[..|a|] + w[|a|..];
      }
    }
    Monomial(a + b)
  }

  /** Multiplying basis vectors is associative, as concatenation of words is. */
  lemma ProductOnBasisAssociative<I(!new)>(a: Word<I>, b: Word<I>, c: Word<I>)
    ensures ProductOnBasis(a + b, c) == ProductOnBasis(a, b + c)
  {
    assert (a + b) + c == a + (b + c);
  }

  /** The empty word indexes a two-sided identity. */
  lemma ProductOnBasisUnit<I(!new)>(a: Word<I>)
    ensures ProductOnBasis(OneBasis(), a) == Monomial(a)
    ensures ProductOnBasis(a, OneBasis()) == Monomial(a)
  {
    assert OneBasis<I>() + a == a && a + OneBasis<I>() == a;
  }

  /** The degree is additive: the product of degree-p and degree-q basis
      vectors is supported on words of degree p + q. */
  lemma ProductOnBasisDegree<I(!new)>(a: Word<I>, b: Word<I>)
    ensures forall w :: w in ProductOnBasis(a, b) ==> DegreeOnBasis(w) == DegreeOnBasis(a) + DegreeOnBasis(b)
  {
    forall w | w in ProductOnBasis(a, b)
      ensures DegreeOnBasis(w) == DegreeOnBasis(a) + DegreeOnBasis(b)
    {
      assert Coefficient(ProductOnBasis(a, b), w) != 0;
    }
  }

  /** `[a, b] * [a, c] == [a, b, a, c]` */
  lemma ProductOnBasisExample()
    ensures ProductOnBasis(['a', 'b'], ['a', 'c']) == Monomial(['a', 'b', 'a', 'c'])
  {
    assert ['a', 'b'] + ['a', 'c'] == ['a', 'b', 'a', 'c'];
  }

  /** The counit: the coefficient of the empty word. It vanishes on every
      element with no part in degree 0. */
  function Counit<I(==)>(x: Element<I>): (c: int)
    ensures (forall w :: w in x ==> DegreeOnBasis(w) > 0) ==> c == 0
    ensures c != 0 ==> exists w :: w in x && DegreeOnBasis(w) == 0 && x[w] == c
    ensures forall w :: w in x && DegreeOnBasis(w) == 0 ==> c == x[w]
  {
    Coefficient(x, OneBasis())
  }

  /** The identification of the base ring with the degree-0 part:
      `r` times the empty word. */
  function BaseRingLift<I(==,!new)>(r: int): (y: Element<I>)
    ensures Counit(y) == r
    ensures forall w :: w in y ==> DegreeOnBasis(w) == 0
  {
    Term(OneBasis(), r)
  }

  /** The counit vanishes on every basis vector of positive degree and is 1 on the unit. */
  lemma CounitOfMonomial<I(!new)>(m: Word<I>)
    ensures Counit(Monomial(m)) == if |m| == 0 then 1 else 0
  {
  }

  /** The counit is linear. */
  lemma CounitAdd<I(!new)>(x: Element<I>, y: Element<I>)
    ensures Counit(Add(x, y)) == Counit(x) + Counit(y)
  {
  }

  /** The counit is multiplicative on basis vectors. */
  lemma CounitOfProduct<I(!new)>(a: Word<I>, b: Word<I>)
    ensures Counit(ProductOnBasis(a, b)) == Counit(Monomial(a)) * Counit(Monomial(b))
  {
    assert Coefficient(ProductOnBasis(a, b), OneBasis()) == if |a| + |b| == 0 then 1 else 0;
  }

  /** `counit([a, b, c]) == 0` and `counit([a, b, c] + 3) == 3` */
  lemma CounitExample()
    ensures Counit(Monomial(['a', 'b', 'c'])) == 0
    ensures Counit(Add(Monomial(['a', 'b', 'c']), BaseRingLift(3))) == 3
  {
  }

  // ---------------------------------------------------------------------
  // Antipode

  /** (-1)^n, written as the source tests it: odd length gives -1. */
  function Sign(n: nat): int
  {
    if n % 2 == 1 then -1 else 1
  }

  /** `c` multiplied by (-1)^n. */
  function Signed(n: nat, c: int): int
  {
    if n % 2 == 1 then -c else c
  }

  /** The antipode of the basis vector indexed by `m`: the runs of `m` are
      reversed and the result carries -1 when its length is odd. */
  function AntipodeOnBasis<I(==,!new)>(m: Word<I>): (r: Element<I>)
    ensures forall w :: Coefficient(r, w) == if w == Reverse(m) then Sign(|m|) else 0
  {
    var runs := Reverse(Compress(m));
    ExpandReverse(Compress(m));
    ReverseLength(Compress(m));
    if Length(runs) % 2 == 1 then Term(Expand(runs), -1) else Term(Expand(runs), 1)
  }

  /** The reversed words of a support. */
  function ReversedSupport<I(==,!new)>(x: Element<I>): (s: set<Word<I>>)
    ensures forall w {:trigger w in s} :: w in s <==> Reverse(w) in x
  {
    var s := set v | v in x :: Reverse(v);
    assert forall w :: w in s <==> Reverse(w) in x by {
      forall w ensures w in s <==> Reverse(w) in x {
        ReverseInvolution(w);
        if w in s {
          var v :| v in x && Reverse(v) == w;
          ReverseInvolution(v);
        }
      }
    }
    s
  }

  /** The antipode extended linearly to all elements. */
  function Antipode<I(==,!new)>(x: Element<I>): (r: Element<I>)
    ensures forall w {:trigger Coefficient(r, w)} :: Coefficient(r, w) == Signed(|w|, Coefficient(x, Reverse(w)))
    ensures Reduced(x) ==> Reduced(r)
  {
    var support := ReversedSupport(x);
    map w | w in support :: Signed(|w|, x[Reverse(w)])
  }

  /** On a basis vector the linear antipode is the antipode on basis. */
  lemma {:induction false} AntipodeOfMonomial<I(!new)>(m: Word<I>)
    ensures Antipode(Monomial(m)) == AntipodeOnBasis(m)
  {
    var a := Antipode(Monomial(m));
    forall w ensures Coefficient(a, w) == Coefficient(AntipodeOnBasis(m), w) {
      ReverseInvolution(w);
      ReverseInvolution(m);
      assert Coefficient(a, w) == Signed(|w|, Coefficient(Monomial(m), Reverse(w)));
      if w == Reverse(m) {
        assert Reverse(w) == m;
      } else {
        assert Reverse(w) != m;
      }
    }
    ReducedExtensional(Antipode(Monomial(m)), AntipodeOnBasis(m));
  }

  /** The antipode is an involution: applying it twice gives every element back. */
  lemma {:induction false} AntipodeInvolution<I(!new)>(x: Element<I>)
    requires Reduced(x)
    ensures Antipode(Antipode(x)) == x
  {
    forall w ensures Coefficient(Antipode(Antipode(x)), w) == Coefficient(x, w) {
      ReverseInvolution(w);
    }
    ReducedExtensional(Antipode(Antipode(x)), x);
  }

  /** Applying the antipode twice to a basis vector gives it back with coefficient 1. */
  lemma AntipodeTwiceOnBasis<I(!new)>(m: Word<I>)
    ensures Antipode(AntipodeOnBasis(m)) == Monomial(m)
  {
    AntipodeOfMonomial(m);
    AntipodeInvolution(Monomial(m));
  }

  /** `S(abc) == -cba`: an odd word changes sign. */
  lemma AntipodeExampleOdd<I(!new)>(a: I, b: I, c: I)
    ensures AntipodeOnBasis([a, b, c]) == Term([c, b, a], -1)
  {
    ReverseOfThree(a, b, c);
    ReducedExtensional(AntipodeOnBasis([a, b, c]), Term([c, b, a], -1));
  }

  /** `S(ab^3) == b^3a`: an even word keeps its sign. */
  lemma AntipodeExampleEven<I(!new)>(a: I, b: I)
    ensures AntipodeOnBasis([a, b, b, b]) == Monomial([b, b, b, a])
  {
    ReverseOfFour(a, b, b, b);
    ReducedExtensional(AntipodeOnBasis([a, b, b, b]), Monomial([b, b, b, a]));
  }

  lemma ReverseOfThree<I>(a: I, b: I, c: I)
    ensures Reverse([a, b, c]) == [c, b, a]
  {
  }

  lemma ReverseOfFour<I>(a: I, b: I, c: I, d: I)
    ensures Reverse([a, b, c, d]) == [d, c, b, a]
  {
  }

  // ---------------------------------------------------------------------
  // Building elements

  /** The shapes of input the element constructor handles itself; anything
      else is passed on to the generic free-module constructor. */
  datatype Input<I(==)> =
    | IndexList(indices: seq<I>)
    | Index(index: I)
    | ModuleElement(vector: Vector<I>)
    | Other

  /** The element of T(M) with coefficient v[k] on each one-letter word [k]. */
  function Singletons<I(==,!new)>(v: Vector<I>): (r: Element<I>)
    ensures forall w :: Coefficient(r, w) == if |w| == 1 then Coefficient(v, w[0]) else 0
    ensures forall w :: w in r ==> |w| == 1 && w[0] in v
    ensures Reduced(v) ==> Reduced(r)
  {
    var words := set k | k in v :: Gen(k);
    assert forall w :: w in words <==> |w| == 1 && w[0] in v by {
      forall w | |w| == 1 && w[0] in v ensures w in words {
        assert w == Gen(w[0]);
      }
    }
    map w | w in words :: v[w[0]]
  }

  /** The element constructor: a list of indices gives the monomial of the
      product of their generators, a single index its one-letter monomial, a
      base-module element keeps its coefficients on one-letter words. */
  function ElementConstructor<I(==,!new)>(x: Input<I>): (r: Option<Element<I>>)
    ensures x.IndexList? ==> r == Some(Monomial(x.indices))
    ensures x.Index? ==> r == Some(Monomial([x.index]))
    ensures x.ModuleElement? ==> r.Some? &&
                                 forall w :: Coefficient(r.value, w) == if |w| == 1 then Coefficient(x.vector, w[0]) else 0
    ensures x.Other? <==> r.None?
  {
    match x
    case IndexList(xs) =>
      FlattenGens(xs);
      Some(Monomial(Flatten(seq(|xs|, i requires 0 <= i < |xs| => Gen(xs[i])))))
    case Index(i) => Some(Monomial(Gen(i)))
    case ModuleElement(v) => Some(Reduce(Singletons(v)))
    case Other => None
  }

  /** `TA(C.an_element()) == 2*B['a'] + 2*B['b'] + 3*B['c']` and
      `TA(['a','b','c']) + TA(['a','b','c']) == 2*B['a'] # B['b'] # B['c']` */
  lemma ElementConstructorExamples()
    ensures ElementConstructor(ModuleElement(map['a' := 2, 'b' := 2, 'c' := 3])) ==
            Some(map[['a'] := 2, ['b'] := 2, ['c'] := 3])
    ensures Add(ElementConstructor(IndexList(['a', 'b', 'c'])).value,
                ElementConstructor(IndexList(['a', 'b', 'c'])).value) == Term(['a', 'b', 'c'], 2)
  {
    var v := map['a' := 2, 'b' := 2, 'c' := 3];
    var r := ElementConstructor(ModuleElement(v)).value;
    var e := map[['a'] := 2, ['b'] := 2, ['c'] := 3];
    forall w ensures Coefficient(r, w) == Coefficient(e, w) {
      if |w| == 1 {
        assert w == [w[0]];
      }
    }
    ReducedExtensional(r, e);
    var m := ElementConstructor(IndexList(['a', 'b', 'c'])).value;
    ReducedExtensional(Add(m, m), Term(['a', 'b', 'c'], 2));
  }

  // ---------------------------------------------------------------------
  // Tensor product of a list of base-module elements

  /** The words obtained by appending a letter of `ms` to a word of `ks`. */
  function ExtendKeys<I(==,!new)>(ks: set<Word<I>>, ms: set<I>): (r: set<Word<I>>)
    ensures forall w {:trigger w in r} :: w in r <==> |w| > 0 && w[..|w| - 1] in ks && w[|w| - 1] in ms
  {
    var r := set k, m | k in ks && m in ms :: k + [m];
    assert forall w :: w in r <==> |w| > 0 && w[..|w| - 1] in ks && w[|w| - 1] in ms by {
      forall w | |w| > 0 && w[..|w| - 1] in ks && w[|w| - 1] in ms ensures w in r {
        assert w == w[..|w| - 1] + [w[|w| - 1]];
      }
      forall w | w in r ensures |w| > 0 && w[..|w| - 1] in ks && w[|w| - 1] in ms {
        var k, m :| k in ks && m in ms && w == k + [m];
        assert w[..|w| - 1] == k;
      }
    }
    r
  }

  /** One step of the fold: every word of `cur` extended by every index of `x`,
      with the product of the two coefficients. */
  function Extend<I(==,!new)>(cur: Element<I>, x: Vector<I>): (r: Element<I>)
    ensures forall w :: Coefficient(r, w) ==
                        if w == [] then 0 else Coefficient(cur, w[..|w| - 1]) * Coefficient(x, w[|w| - 1])
    ensures forall w :: w in r ==> |w| > 0 && w[..|w| - 1] in cur && w[|w| - 1] in x
  {
    var keys := ExtendKeys(cur.Keys, x.Keys);
    map w | w in keys :: cur[w[..|w| - 1]] * x[w[|w| - 1]]
  }

  /** The words of `Extend(cur, x)`: every word of `cur` followed by every index of `x`. */
  lemma ExtendSupport<I(!new)>(cur: Element<I>, x: Vector<I>)
    ensures Extend(cur, x).Keys == ExtendKeys(cur.Keys, x.Keys)
  {
  }

  /** The tensor product of a list of base-module elements, before zero
      coefficients are dropped. */
  function Tensor<I(==,!new)>(elts: seq<Vector<I>>): Element<I>
  {
    if elts == [] then map[OneBasis() := 1] else Extend(Tensor(elts[..|elts| - 1]), elts[|elts| - 1])
  }

  /** The product over positions i of the coefficient of w[i] in the i-th factor. */
  function CoefficientProduct<I(==)>(elts: seq<Vector<I>>, w: Word<I>): int
    requires |w| == |elts|
  {
    if elts == [] then 1
    else CoefficientProduct(elts[..|elts| - 1], w[..|w| - 1]) * Coefficient(elts[|elts| - 1], w[|w| - 1])
  }

  /** One fold step, read off coefficientwise. */
  lemma TensorStep<I(!new)>(elts: seq<Vector<I>>, w: Word<I>)
    requires elts != [] && w != []
    ensures Coefficient(Tensor(elts), w) ==
            Coefficient(Tensor(elts[..|elts| - 1]), w[..|w| - 1]) * Coefficient(elts[|elts| - 1], w[|w| - 1])
  {
    assert Tensor(elts) == Extend(Tensor(elts[..|elts| - 1]), elts[|elts| - 1]);
  }

  lemma {:induction false} TensorCoefficient<I(!new)>(elts: seq<Vector<I>>, w: Word<I>)
    ensures Coefficient(Tensor(elts), w) == if |w| == |elts| then CoefficientProduct(elts, w) else 0
  {
    if elts == [] {
      assert Tensor(elts) == map[[] := 1];
    } else if w == [] {
      assert Tensor(elts) == Extend(Tensor(elts[..|elts| - 1]), elts[|elts| - 1]);
    } else {
      var n := |elts|;
      var init, last := elts[..n - 1], elts[n - 1];
      var w', k := w[..|w| - 1], w[|w| - 1];
      TensorStep(elts, w);
      TensorCoefficient(init, w');
      if |w| == n {
        assert CoefficientProduct(elts, w) == CoefficientProduct(init, w') * Coefficient(last, k);
      }
    }
  }

  lemma {:induction false} TensorSupport<I(!new)>(elts: seq<Vector<I>>)
    ensures forall w :: w in Tensor(elts) ==> |w| == |elts|
  {
    if elts != [] {
      TensorSupport(elts[..|elts| - 1]);
    }
  }

  /** The tensor product of a list of base-module elements: homogeneous of
      degree the number of factors, the coefficient of k1...kn being the
      product of the coefficient of ki in the i-th factor. */
  function TensorProduct<I(==,!new)>(elts: seq<Vector<I>>): (r: Element<I>)
    ensures Reduced(r)
    ensures forall w :: Coefficient(r, w) == if |w| == |elts| then CoefficientProduct(elts, w) else 0
    ensures forall w :: w in r ==> |w| == |elts|
  {
    assert forall w :: Coefficient(Tensor(elts), w) == if |w| == |elts| then CoefficientProduct(elts, w) else 0 by {
      forall w { TensorCoefficient(elts, w); }
    }
    Reduce(Tensor(elts))
  }

  /** The tensor product of n factors is homogeneous of degree n. */
  lemma TensorProductHomogeneous<I(!new)>(elts: seq<Vector<I>>)
    ensures forall w :: w in TensorProduct(elts) ==> DegreeOnBasis(w) == |elts|
  {
  }

  /** The tensor product of no factors is the unit. */
  lemma TensorProductEmpty<I(!new)>()
    ensures TensorProduct<I>([]) == One()
  {
    ReducedExtensional(TensorProduct<I>([]), One());
  }

  /** The tensor product of one factor is that element on one-letter words. */
  lemma TensorProductSingle<I(!new)>(x: Vector<I>)
    requires Reduced(x)
    ensures TensorProduct([x]) == Singletons(x)
    ensures Some(TensorProduct([x])) == ElementConstructor(ModuleElement(x))
  {
    forall w ensures Coefficient(TensorProduct([x]), w) == Coefficient(Singletons(x), w) {
      if |w| == 1 {
        assert [x][..0] == [] && w[..0] == [];
        assert CoefficientProduct([x], w) == CoefficientProduct<I>([], []) * Coefficient(x, w[0]);
      }
    }
    ReducedExtensional(TensorProduct([x]), Singletons(x));
    ReducedExtensional(Reduce(Singletons(x)), Singletons(x));
  }

  /** Every word of `cur` has `j` letters. */
  ghost predicate Homogeneous<I>(cur: Element<I>, j: nat)
  {
    forall w :: w in cur ==> |w| == j
  }

  /** Every stored word of `next` is a `j`-letter word of `cur` followed by an
      index of `x`, stored with the product of the two coefficients. */
  ghost predicate Agrees<I>(next: Element<I>, cur: Element<I>, x: Vector<I>, j: nat)
  {
    forall w :: w in next ==> |w| == j + 1 && w[..j] in cur && w[j] in x && next[w] == cur[w[..j]] * x[w[j]]
  }

  /** A dictionary holding exactly the one-letter extensions of the words of
      `cur`, each with the product coefficient, is the fold step `Extend(cur, x)`. */
  lemma ExtendFromPoints<I(!new)>(next: Element<I>, cur: Element<I>, x: Vector<I>, j: nat)
    requires Homogeneous(cur, j)
    requires next.Keys == ExtendKeys(cur.Keys, x.Keys)
    requires Agrees(next, cur, x, j)
    ensures next == Extend(cur, x)
  {
    var e := Extend(cur, x);
    ExtendSupport(cur, x);
    assert forall w :: w in next ==> next[w] == e[w];
  }

  /** The constructor's state between two words of `cur`: the words of
      `done` have been extended by every index of `x`, and nothing else. */
  ghost predicate RowsDone<I(!new)>(next: Element<I>, cur: Element<I>, x: Vector<I>, j: nat, done: set<Word<I>>)
  {
    Agrees(next, cur, x, j) && next.Keys == ExtendKeys(done, x.Keys)
  }

  /** The constructor's state inside the row of word `k`: besides the rows of
      `done`, `k` has been extended by the indices of `x` not in `letters`. */
  ghost predicate RowPartial<I(!new)>(next: Element<I>, cur: Element<I>, x: Vector<I>, j: nat,
                                      done: set<Word<I>>, k: Word<I>, letters: set<I>)
  {
    Agrees(next, cur, x, j) && next.Keys == ExtendKeys(done, x.Keys) + ExtendKeys({k}, x.Keys - letters)
  }

  /** Starting the row of `k`: no index of `x` has been used yet. */
  lemma RowStart<I(!new)>(next: Element<I>, cur: Element<I>, x: Vector<I>, j: nat, done: set<Word<I>>, k: Word<I>)
    requires RowsDone(next, cur, x, j, done)
    ensures RowPartial(next, cur, x, j, done, k, x.Keys)
  {
    assert ExtendKeys({k}, x.Keys - x.Keys) == {};
  }

  /** Finishing the row of `k`: it joins the finished words. */
  lemma RowEnd<I(!new)>(next: Element<I>, cur: Element<I>, x: Vector<I>, j: nat, done: set<Word<I>>, k: Word<I>)
    requires RowPartial(next, cur, x, j, done, k, {})
    ensures RowsDone(next, cur, x, j, done + {k})
  {
    assert x.Keys - {} == x.Keys;
  }

  /** One pass of the innermost loop of the constructor: storing the extension
      of `k` by `m` (whose old coefficient in `cur` is zero, as it is one letter
      too long) moves `m` from the pending indices to the stored ones. */
  lemma ConstructorStep<I(!new)>(next: Element<I>, cur: Element<I>, x: Vector<I>, j: nat,
                                 done: set<Word<I>>, k: Word<I>, letters: set<I>, m: I)
    requires Homogeneous(cur, j) && k in cur && m in letters && letters <= x.Keys
    requires RowPartial(next, cur, x, j, done, k, letters)
    ensures Coefficient(cur, k + Gen(m)) == 0
    ensures RowPartial(next[k + Gen(m) := Coefficient(cur, k + Gen(m)) + cur[k] * x[m]], cur, x, j,
                       done, k, letters - {m})
  {
    var i := k + Gen(m);
    assert i[..j] == k && i[j] == m;
    assert i !in cur;
    var after := ExtendKeys({k}, x.Keys - (letters - {m}));
    assert after == ExtendKeys({k}, x.Keys - letters) + {i} by {
      assert i[..|i| - 1] == k;
    }
  }

  /** The first factor alone, on one-letter words, is the first fold step. */
  lemma TensorOfOne<I(!new)>(x: Vector<I>)
    ensures Tensor([x]) == Singletons(x)
  {
    var unit: Element<I> := map[[] := 1];
    TensorOfOneStep(x);
    SingletonsAgree(x);
    SingletonsKeys(x);
    ExtendFromPoints(Singletons(x), unit, x, 0);
  }

  lemma TensorOfOneStep<I(!new)>(x: Vector<I>)
    ensures Tensor([x]) == Extend(map[[] := 1], x)
  {
    assert [x][..0] == [];
  }

  lemma SingletonsAgree<I(!new)>(x: Vector<I>)
    ensures Agrees(Singletons(x), map[[] := 1], x, 0)
  {
    var unit: Element<I> := map[[] := 1];
    var s := Singletons(x);
    forall w | w in s ensures |w| == 1 && w[..0] in unit && w[0] in x && s[w] == unit[w[..0]] * x[w[0]] {
      assert w[..0] == [];
      assert Coefficient(s, w) == x[w[0]];
    }
  }

  lemma SingletonsKeys<I(!new)>(x: Vector<I>)
    ensures Singletons(x).Keys == ExtendKeys(map[[] := 1].Keys, x.Keys)
  {
    var unit: Element<I> := map[[] := 1];
    var s := Singletons(x);
    forall w | w in ExtendKeys(unit.Keys, x.Keys) ensures w in s {
      assert w[..|w| - 1] == [];
      assert Coefficient(s, w) == x[w[0]];
    }
    forall w | w in s ensures w in ExtendKeys(unit.Keys, x.Keys) {
      assert w[..|w| - 1] == [];
    }
  }

  /** The fold one factor further. */
  lemma TensorSnoc<I(!new)>(elts: seq<Vector<I>>, j: nat)
    requires j < |elts|
    ensures Homogeneous(Tensor(elts[..j]), j)
    ensures Tensor(elts[..j + 1]) == Extend(Tensor(elts[..j]), elts[j])
  {
    TensorSupport(elts[..j]);
    assert elts[..j + 1][..j] == elts[..j];
  }

  /** The innermost loop of the constructor: the word `k` of `cur` extended
      by every index of `x`, added to the words already stored in `next`. */
  method ExtendRow<I(==,!new)>(next: Element<I>, cur: Element<I>, x: Vector<I>, ghost j: nat,
                               ghost done: set<Word<I>>, k: Word<I>) returns (next': Element<I>)
    requires Homogeneous(cur, j) && k in cur
    requires RowsDone(next, cur, x, j, done)
    ensures RowsDone(next', cur, x, j, done + {k})
  {
    next' := next;
    var v := cur[k];
    var letters := x.Keys;
    RowStart(next', cur, x, j, done, k);
    while letters != {}
      invariant letters <= x.Keys
      invariant RowPartial(next', cur, x, j, done, k, letters)
      decreases letters
    {
      var m :| m in letters;
      var c := x[m];
      var i := k + Gen(m);
      ConstructorStep(next', cur, x, j, done, k, letters, m);
      next' := next'[i := Coefficient(cur, i) + v * c];
      letters := letters - {m};
    }
    RowEnd(next', cur, x, j, done, k);
  }

  /** One pass of the constructor's outer loop: every word of `cur` (all of
      length `j`) extended by every index of `x`, accumulated into a fresh
      dictionary. */
  method ExtendFactor<I(==,!new)>(cur: Element<I>, x: Vector<I>, ghost j: nat) returns (next: Element<I>)
    requires Homogeneous(cur, j)
    ensures next == Extend(cur, x)
  {
    next := map[];
    var todo := cur.Keys;
    while todo != {}
      invariant todo <= cur.Keys
      invariant RowsDone(next, cur, x, j, cur.Keys - todo)
      decreases todo
    {
      var k :| k in todo;
      next := ExtendRow(next, cur, x, j, cur.Keys - todo, k);
      assert cur.Keys - todo + {k} == cur.Keys - (todo - {k});
      todo := todo - {k};
    }
    assert cur.Keys - todo == cur.Keys;
    ExtendFromPoints(next, cur, x, j);
  }

  /** The fold over the first factor alone. */
  lemma TensorFirst<I(!new)>(elts: seq<Vector<I>>)
    requires elts != []
    ensures Tensor(elts[..1]) == Singletons(elts[0])
  {
    assert elts[..1] == [elts[0]];
    TensorOfOne(elts[0]);
  }

  /** The fold over all factors, reduced, is the tensor product. */
  lemma TensorAll<I(!new)>(elts: seq<Vector<I>>)
    ensures Reduce(Tensor(elts[..|elts|])) == TensorProduct(elts)
  {
    assert elts[..|elts|] == elts;
  }

  /** `_tensor_constructor_`: the tensor product of a list of base-module
      elements, folded factor by factor over dictionaries. */
  method TensorConstructor<I(==,!new)>(elts: seq<Vector<I>>) returns (r: Element<I>)
    ensures r == TensorProduct(elts)
  {
    if |elts| == 0 {
      r := One();
      TensorProductEmpty<I>();
      return;
    }
    var cur: Element<I> := Singletons(elts[0]);
    TensorFirst(elts);
    var j := 1;
    while j < |elts|
      invariant 1 <= j <= |elts|
      invariant cur == Tensor(elts[..j])
    {
      TensorSnoc(elts, j);
      cur := ExtendFactor(cur, elts[j], j);
      j := j + 1;
    }
    TensorAll(elts);
    r := Reduce(cur);
  }

  /** With two factors the coefficient of a two-letter word is the product of
      the coefficients of its letters. */
  lemma CoefficientProductTwo<I>(x: Vector<I>, y: Vector<I>, w: Word<I>)
    requires |w| == 2
    ensures CoefficientProduct([x, y], w) == Coefficient(x, w[0]) * Coefficient(y, w[1])
  {
    assert [x, y][..1] == [x] && w[..1] == [w[0]];
    assert [x][..0] == [] && [w[0]][..0] == [];
    assert CoefficientProduct([x], [w[0]]) == CoefficientProduct<I>([], []) * Coefficient(x, w[0]);
  }

  /** The expected coefficients of the two-factor example, letter by letter. */
  lemma TwoFactorExampleCoefficient(w: Word<char>)
    requires |w| == 2
    ensures Coefficient(map['a' := 2, 'b' := 2], w[0]) * Coefficient(map['b' := 1, 'a' := 3], w[1]) ==
            Coefficient(map[['a', 'a'] := 6, ['a', 'b'] := 2, ['b', 'a'] := 6, ['b', 'b'] := 2], w)
  {
    assert w == [w[0], w[1]];
  }

  /** With x = 2a + 2b and y = b + 3a: the constructor of [x, y] is
      6 aa + 2 ab + 6 ba + 2 bb. */
  lemma TensorConstructorExample()
    ensures TensorProduct([map['a' := 2, 'b' := 2], map['b' := 1, 'a' := 3]]) ==
            map[['a', 'a'] := 6, ['a', 'b'] := 2, ['b', 'a'] := 6, ['b', 'b'] := 2]
  {
    var x := map['a' := 2, 'b' := 2];
    var y := map['b' := 1, 'a' := 3];
    var t := TensorProduct([x, y]);
    var e := map[['a', 'a'] := 6, ['a', 'b'] := 2, ['b', 'a'] := 6, ['b', 'b'] := 2];
    forall w ensures Coefficient(t, w) == Coefficient(e, w) {
      if |w| == 2 {
        CoefficientProductTwo(x, y, w);
        TwoFactorExampleCoefficient(w);
      } else {
        assert w !in e;
      }
    }
    ReducedExtensional(t, e);
  }
}
