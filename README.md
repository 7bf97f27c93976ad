# Tensor algebra and developer-tool helpers, in Dafny

This project models the combinatorial core of Sage's tensor algebra T(M) of
a free module M with basis indexed by a set I
(`src/sage/algebras/tensor_algebra.py`). It also models the pure helpers
that `src/sage/misc/dev_tools.py` uses to print import statements.

**Tensor algebra.**

- A basis index of T(M) is a word over I, an element of the free monoid on
  I. The monoid stores it as runs `(k, e)` with positive exponents and
  distinct neighbouring generators. The model keeps the flat word (`seq<I>`)
  and the run-length form (`seq<(I, nat)>`). `Words.Compress` and
  `Words.Expand` convert between them. The run-length form is used wherever
  the source reads `_monomial`: the antipode, the coproduct, the degree
  (`length()`) and `to_word_list()`.
- An element is a dictionary from words to integer coefficients
  (`map<seq<I>, int>`). A missing key means coefficient zero, and the stored
  coefficients are never zero. Module `Linear` holds the free-module
  operations the algebra relies on: `term`, `monomial`, `sum_of_terms`,
  `_from_dict` and the sum.
- Module `TensorAlgebra` holds the algebra operations:
  - the product on basis vectors (concatenation);
  - the degree (length) and the unit (the empty word);
  - the counit (the coefficient of the empty word);
  - the antipode (reversal with sign (-1)^length);
  - the element constructor;
  - `_tensor_constructor_`, which folds a list of base-module elements into
    a homogeneous element. It is an imperative method with the source's
    nested loops over dictionaries, proved equal to a tensor-product function
    whose coefficients are the products of the factors' coefficients.
- Module `Coproduct` models the coproduct. A basis word maps to the running
  product, in the tensor square, of the primitive coproducts `g # 1 + 1 # g`
  of its letters. The model proves:
  - multiplicativity;
  - the shape of the result: 2^n terms, each with coefficient 1 and
    components of total length n;
  - the counit axioms;
  - cocommutativity: u # v and v # u have the same coefficient;
  - both antipode axioms: applying (antipode # id), or (id # antipode), and
    then the product gives the counit times 1.
- Module `WordMaps` models the letter-by-letter maps between tensor
  algebras: the functor applied to a module morphism, and the coercion from a
  tensor algebra whose base module coerces into this one. Both send a word to
  `_tensor_constructor_` of the images of its letters and extend linearly.

**Developer tools** (module `DevTools`):

- `module_names_cmp`: Python 2 `cmp` on (number of dots, name).
- The two formats of `print_import_statement`.
- `print_or_update` appending to a list. The list is a class whose field the
  method reassigns.
- The filter in `import_statements` that drops modules whose name ends in
  `all` or `all_cmdline`.

The source code and its doctests were followed throughout. The only place
they needed reading closely is `_tensor_constructor_`, which adds to
`cur.get(i, zero)` rather than to the value already stored in `next`. The
model keeps that lookup. `TensorAlgebra.ConstructorStep` proves that the
lookup is always zero, because a key of `next` is one letter longer than
every key of `cur`. So the code computes the tensor product its doctests
show.

## Model

| member | source | states |
|---|---|---|
| Words.Reverse | src/sage/algebras/tensor_algebra.py:525 | the reversed word has the same length, and its letter i is letter n-1-i of the word |
| Words.ReverseInvolution | src/sage/algebras/tensor_algebra.py:525 | reversing twice gives the word back |
| Words.ReverseAppend | src/sage/algebras/tensor_algebra.py:525 | reversing a concatenation concatenates the reversals in swapped order |
| Words.Repeat | src/sage/algebras/tensor_algebra.py:569 | `range(e)` copies of a generator: e letters, all equal to it |
| Words.Expand | src/sage/algebras/tensor_algebra.py:569 | the flat word of a run list has as many letters as the exponents add up to |
| Words.Compress | src/sage/algebras/tensor_algebra.py:525 | the stored form of a word is normal (positive exponents, distinct neighbouring generators), expands back to the word, and starts with the word's first letter |
| Words.CompressExpand | src/sage/algebras/tensor_algebra.py:525 | a normal run list is the stored form of its own word, so the stored form is unique |
| Words.CompressRepeat | src/sage/algebras/tensor_algebra.py:525 | a block of a generator placed before a word that starts differently adds exactly one run in front |
| Words.CompressCons | src/sage/algebras/tensor_algebra.py:525 | a letter joins the first run when that run has the same generator, and starts its own run otherwise |
| Words.ExpandReverse | src/sage/algebras/tensor_algebra.py:525 | reversing the runs and then expanding is reversing the expanded word |
| Words.ReverseNormal | src/sage/algebras/tensor_algebra.py:525 | the reversed runs of a normal form are a normal form |
| Words.ReverseLength | src/sage/algebras/tensor_algebra.py:527 | the reversed element has the same length |
| Words.LengthAppend | src/sage/algebras/tensor_algebra.py:410 | the length of two run lists put together is the sum of their lengths |
| Words.ExpandAppend | src/sage/algebras/tensor_algebra.py:569 | expanding two run lists put together concatenates their words |
| Words.ReverseRepeat | src/sage/algebras/tensor_algebra.py:525 | a block of one generator reads the same backwards |
| Linear.ReducedExtensional | src/sage/algebras/tensor_algebra.py:283 | two elements with no stored zero and the same coefficients are equal |
| Linear.Reduce | src/sage/algebras/tensor_algebra.py:283 | `_from_dict` drops zero coefficients and keeps every coefficient |
| Linear.Term | src/sage/algebras/tensor_algebra.py:528-530 | `term(m, c)` has coefficient c on m and 0 elsewhere |
| Linear.Monomial | src/sage/algebras/tensor_algebra.py:238 | `monomial(m)` has coefficient 1 on m and 0 elsewhere |
| Linear.AddTerm | src/sage/algebras/tensor_algebra.py:242 | adding one term raises exactly that coefficient and keeps the element reduced |
| Linear.Collect | src/sage/algebras/tensor_algebra.py:242 | `sum_of_terms` is reduced, and each coefficient is the total of the terms on that index |
| Linear.WeightAppend | src/sage/algebras/tensor_algebra.py:242 | the total on an index over two term lists put together is the sum of the totals |
| Linear.WeightSupport | src/sage/algebras/tensor_algebra.py:242 | a nonzero total on an index needs a term on that index |
| Linear.CollectSupport | src/sage/algebras/tensor_algebra.py:242 | every index in a collected sum comes from one of its terms |
| Linear.TotalRemove | src/sage/algebras/tensor_algebra.py:242 | the sum of all coefficients does not depend on which one is taken first |
| Linear.TotalAddTerm | src/sage/algebras/tensor_algebra.py:242 | adding a term c adds c to the sum of all coefficients |
| Linear.TotalCollect | src/sage/algebras/tensor_algebra.py:242 | collecting like terms keeps the sum of the coefficients |
| Linear.WeightScaled | src/sage/algebras/tensor_algebra.py:242 | scaling every term by a weight of its index scales each collected coefficient by that weight |
| Linear.SumScaled | src/sage/algebras/tensor_algebra.py:242 | the coefficient sum of the scaled list is the pairing of the list with the weight |
| Linear.PairingCollect | src/sage/algebras/tensor_algebra.py:242 | lists of terms adding up to the same element pair alike with every weight |
| Linear.Add | src/sage/algebras/tensor_algebra.py:226-231 | the sum of two elements adds coefficients and stores no zero |
| Linear.AddZero | src/sage/algebras/tensor_algebra.py:226-231 | zero is a two-sided identity for the sum |
| Linear.AddAssociative | src/sage/algebras/tensor_algebra.py:226-231 | the sum is associative |
| TensorAlgebra.WordList | src/sage/algebras/tensor_algebra.py:364 | the word list of a monoid element, read off its runs, is the word itself |
| TensorAlgebra.FlattenGens | src/sage/algebras/tensor_algebra.py:237-240 | `FM.prod` of the generators `FM.gen(elt)` (the one-letter words `Gen`) of a list of indices is that list as a word |
| TensorAlgebra.Flatten | src/sage/algebras/tensor_algebra.py:237 | `FM.prod` of n generators is a word of n letters, and no factor is longer than the product |
| TensorAlgebra.FlattenAppend | src/sage/algebras/tensor_algebra.py:237 | `FM.prod` is a monoid homomorphism: the product over two lists put together is the product of the two products |
| TensorAlgebra.DegreeOnBasis | src/sage/algebras/tensor_algebra.py:396-410 | the degree of a basis word, the sum of its run exponents, is its number of letters |
| TensorAlgebra.One | src/sage/algebras/tensor_algebra.py:425-445 | the unit 1, `monomial(one_basis())`, is the lift of the scalar 1: counit 1 and nothing outside degree 0 |
| TensorAlgebra.ProductOnBasis | src/sage/algebras/tensor_algebra.py:469-488 | the product of basis vectors a and b has coefficient 1 exactly on the word that starts with a and goes on with b |
| TensorAlgebra.ProductOnBasisAssociative | src/sage/algebras/tensor_algebra.py:469-488 | (ab)c and a(bc) index the same basis vector |
| TensorAlgebra.ProductOnBasisUnit | src/sage/algebras/tensor_algebra.py:425-445 | `one_basis()`, the empty word `OneBasis`, indexes a two-sided identity for the product on basis |
| TensorAlgebra.ProductOnBasisDegree | src/sage/algebras/tensor_algebra.py:396-410 | the product of words of degrees p and q is supported in degree p + q |
| TensorAlgebra.ProductOnBasisExample | src/sage/algebras/tensor_algebra.py:485-486 | ab times ac is abac |
| TensorAlgebra.BaseRingLift | src/sage/algebras/tensor_algebra.py:691-704 | r goes to an element of degree 0 whose counit is r |
| TensorAlgebra.Counit | src/sage/algebras/tensor_algebra.py:490-508 | `x[one_basis()]`: the stored coefficient of the degree-0 word when there is one, and 0 on an element with no part in degree 0 |
| TensorAlgebra.CounitAdd | src/sage/algebras/tensor_algebra.py:490-508 | the counit is linear: the counit of a sum is the sum of the counits |
| TensorAlgebra.CounitOfMonomial | src/sage/algebras/tensor_algebra.py:490-508 | the counit is 1 on the unit and 0 on every basis word of positive degree |
| TensorAlgebra.CounitOfProduct | src/sage/algebras/tensor_algebra.py:490-508 | the counit of a product of basis vectors is the product of their counits |
| TensorAlgebra.CounitExample | src/sage/algebras/tensor_algebra.py:500-506 | counit(abc) is 0 and counit(abc + 3) is 3 |
| TensorAlgebra.AntipodeOnBasis | src/sage/algebras/tensor_algebra.py:510-530 | the antipode of word m is (-1)^len(m) times the reversed word, and 0 on every other word |
| TensorAlgebra.Antipode | src/sage/algebras/tensor_algebra.py:510-530 | the linear antipode gives word w the coefficient of its reversal times (-1)^len(w), and stores no zero |
| TensorAlgebra.AntipodeOfMonomial | src/sage/algebras/tensor_algebra.py:510-530 | on a basis vector the linear antipode is the antipode on basis |
| TensorAlgebra.AntipodeInvolution | src/sage/algebras/tensor_algebra.py:510-530 | the antipode applied twice gives every element back |
| TensorAlgebra.AntipodeTwiceOnBasis | src/sage/algebras/tensor_algebra.py:510-530 | the antipode applied twice to a basis vector gives it back with coefficient 1 |
| TensorAlgebra.AntipodeExampleOdd | src/sage/algebras/tensor_algebra.py:518-520 | S(abc) is -cba |
| TensorAlgebra.AntipodeExampleEven | src/sage/algebras/tensor_algebra.py:521-523 | S(abbb) is bbba |
| TensorAlgebra.Singletons | src/sage/algebras/tensor_algebra.py:241-242 | a base-module element keeps its coefficients on one-letter words and has nothing else |
| TensorAlgebra.ElementConstructor | src/sage/algebras/tensor_algebra.py:214-243 | a list of indices gives the monomial of that word; an index gives its one-letter monomial; a module element keeps its coefficients on one-letter words; any other input is passed on |
| TensorAlgebra.ElementConstructorExamples | src/sage/algebras/tensor_algebra.py:230-233 | `TA(C.an_element())` is 2a + 2b + 3c, and `TA(['a','b','c'])` added to itself is 2abc |
| TensorAlgebra.ExtendKeys | src/sage/algebras/tensor_algebra.py:278-280 | the words reached are exactly a word of `cur` followed by an index of `x` |
| TensorAlgebra.Extend | src/sage/algebras/tensor_algebra.py:276-282 | one pass of the outer loop as a function: a word's coefficient is that of its front in `cur` times that of its last letter in `x`, the empty word gets 0, and every stored word is a word of `cur` followed by an index of `x` |
| TensorAlgebra.ExtendSupport | src/sage/algebras/tensor_algebra.py:278-281 | after one factor, the words are every word of `cur` followed by every index of `x` |
| TensorAlgebra.TensorStep | src/sage/algebras/tensor_algebra.py:276-282 | one fold step, read off coefficient by coefficient |
| TensorAlgebra.TensorCoefficient | src/sage/algebras/tensor_algebra.py:245-283 | the fold gives a word of n letters the product of the coefficient of its i-th letter in the i-th factor, and every other word 0 |
| TensorAlgebra.TensorSupport | src/sage/algebras/tensor_algebra.py:276-282 | after n factors every stored word has n letters |
| TensorAlgebra.TensorProduct | src/sage/algebras/tensor_algebra.py:245-283 | the tensor product of n factors is reduced, homogeneous of degree n, and gives k1...kn the product of the coefficients of ki in the i-th factor |
| TensorAlgebra.TensorProductHomogeneous | src/sage/algebras/tensor_algebra.py:245-283 | every word of the tensor product of n factors has degree n |
| TensorAlgebra.TensorProductEmpty | src/sage/algebras/tensor_algebra.py:267-271 | the tensor product of no factors is the unit |
| TensorAlgebra.TensorProductSingle | src/sage/algebras/tensor_algebra.py:263-266 | the tensor product of one factor is that element on one-letter words, as the element constructor makes it |
| TensorAlgebra.ExtendFromPoints | src/sage/algebras/tensor_algebra.py:277-282 | a dictionary holding exactly the extended words, each with the product coefficient, is the fold step |
| TensorAlgebra.RowStart | src/sage/algebras/tensor_algebra.py:279 | at the start of a row no index of `x` has been used |
| TensorAlgebra.RowEnd | src/sage/algebras/tensor_algebra.py:278-281 | at the end of a row the row's word joins the finished ones |
| TensorAlgebra.ConstructorStep | src/sage/algebras/tensor_algebra.py:280-281 | `cur.get(i, zero)` is zero for the new key `i`, and storing `v * c` there keeps the loop invariant |
| TensorAlgebra.TensorOfOne | src/sage/algebras/tensor_algebra.py:275 | the dictionary built from the first factor is the first fold step |
| TensorAlgebra.TensorOfOneStep | src/sage/algebras/tensor_algebra.py:275 | folding one factor is extending the unit by it |
| TensorAlgebra.SingletonsAgree | src/sage/algebras/tensor_algebra.py:275 | each one-letter word holds the product of 1 and its letter's coefficient |
| TensorAlgebra.SingletonsKeys | src/sage/algebras/tensor_algebra.py:275 | the one-letter words are the empty word extended by the factor's indices |
| TensorAlgebra.TensorFirst | src/sage/algebras/tensor_algebra.py:275 | the dictionary before the outer loop is the fold over the first factor |
| TensorAlgebra.TensorSnoc | src/sage/algebras/tensor_algebra.py:276-282 | each pass of the outer loop is one more fold step, on a homogeneous dictionary |
| TensorAlgebra.TensorAll | src/sage/algebras/tensor_algebra.py:283 | the final `_from_dict` of the fold over all factors is the tensor product |
| TensorAlgebra.ExtendRow | src/sage/algebras/tensor_algebra.py:278-281 | the inner loop over `x` adds the extensions of one word of `cur`, and nothing else, each with the product coefficient |
| TensorAlgebra.ExtendFactor | src/sage/algebras/tensor_algebra.py:276-282 | one pass of the outer loop turns `cur` into the next fold step |
| TensorAlgebra.TensorConstructor | src/sage/algebras/tensor_algebra.py:245-283 | `_tensor_constructor_` returns the tensor product of its factors (the unit for none) |
| TensorAlgebra.CoefficientProductTwo | src/sage/algebras/tensor_algebra.py:256-262 | with two factors a word's coefficient is the product of its two letters' coefficients |
| TensorAlgebra.TwoFactorExampleCoefficient | src/sage/algebras/tensor_algebra.py:259-262 | (2a + 2b)(b + 3a) letter by letter gives 6, 2, 6, 2 |
| TensorAlgebra.TensorConstructorExample | src/sage/algebras/tensor_algebra.py:259-262 | `_tensor_constructor_([2a + 2b, b + 3a])` is 6aa + 2ab + 6ba + 2bb |
| WordMaps.MapOnBasis | src/sage/algebras/tensor_algebra.py:676-681 | the image of a basis word is reduced and homogeneous of the word's degree |
| WordMaps.MapOnBasisHomogeneous | src/sage/algebras/tensor_algebra.py:360-365 | the image of a degree-n word is supported in degree n |
| WordMaps.MapOnBasisCoefficient | src/sage/algebras/tensor_algebra.py:676-681 | a word's coefficient in the image is the product of its letters' coefficients in the images of the corresponding letters |
| WordMaps.CoefficientProductAppend | src/sage/algebras/tensor_algebra.py:679-680 | the product of coefficients splits at any cut of the factors |
| WordMaps.LetterImagesAppend | src/sage/algebras/tensor_algebra.py:679-680 | `LetterImages`, the list of the letters' images, sends two letter blocks put together to the two image lists put together |
| WordMaps.MapOnBasisMultiplicative | src/sage/algebras/tensor_algebra.py:676-681 | the coefficient of uv in the image of ab is that of u in the image of a times that of v in the image of b |
| WordMaps.CoefficientProductOfLetters | src/sage/algebras/tensor_algebra.py:363-364 | when each letter goes to one basis vector, the product of coefficients is 1 on the renamed word (the letters' images under the index map) and 0 elsewhere |
| WordMaps.MapOnBasisOfLetters | src/sage/algebras/tensor_algebra.py:360-365 | a coercion sending each index to one basis vector sends a word to the monomial of the renamed word |
| WordMaps.MapOnBasisIdentity | src/sage/algebras/tensor_algebra.py:676-681 | the functor sends the identity morphism to the identity on basis words |
| WordMaps.MapOnBasisLetter | src/sage/algebras/tensor_algebra.py:668-669 | a one-letter word goes to its letter's image on one-letter words |
| WordMaps.Scale | src/sage/algebras/tensor_algebra.py:341 | c times an element multiplies each coefficient by c |
| WordMaps.Apply | src/sage/algebras/tensor_algebra.py:681 | the linear extension of the map on basis words is reduced |
| WordMaps.ApplyAppend | src/sage/algebras/tensor_algebra.py:681 | the linear extension sends two term lists put together to the sum of their images |
| WordMaps.ApplySnoc | src/sage/algebras/tensor_algebra.py:681 | the image of a term list is the image of its front plus that of its last term |
| WordMaps.ApplySingle | src/sage/algebras/tensor_algebra.py:681 | the image of c times m is c times the image of m |
| WordMaps.CoefficientApplySnoc | src/sage/algebras/tensor_algebra.py:681 | one more term c * m raises each coefficient of the image by c times that coefficient of the image of m |
| WordMaps.CoefficientApply | src/sage/algebras/tensor_algebra.py:681 | each coefficient of the image of a term list is the list paired with that coefficient of the basis images |
| WordMaps.ApplyCollect | src/sage/algebras/tensor_algebra.py:681 | term lists adding up to the same element have the same image, so the linear extension is a map on elements |
| WordMaps.MapOnBasisTwoLetters | src/sage/algebras/tensor_algebra.py:672-674 | a two-letter word goes to the tensor product of its letters' images |
| WordMaps.ScaleMonomial | src/sage/algebras/tensor_algebra.py:341 | c times a basis vector is the term c k |
| WordMaps.ScaleOne | src/sage/algebras/tensor_algebra.py:681 | once an element is the element |
| WordMaps.DoubleWord | src/sage/algebras/tensor_algebra.py:329 | renaming k to 2k turns 12211 into 24422 |
| WordMaps.CoercionExample | src/sage/algebras/tensor_algebra.py:341-342 | `TAD(3 * TAC([1, 2, 2, 1, 1]))` is 3 times the word 24422 |
| WordMaps.FunctorExampleCoefficient | src/sage/algebras/tensor_algebra.py:672-674 | the letter-by-letter coefficients of (2a + b)(a + b + c) |
| WordMaps.FunctorExampleWords | src/sage/algebras/tensor_algebra.py:672-674 | the expected image has two-letter words only |
| WordMaps.FunctorExamplePoint | src/sage/algebras/tensor_algebra.py:672-674 | each coefficient of the tensor product of 2a + b and a + b + c is the expected one |
| WordMaps.FunctorExampleAllPoints | src/sage/algebras/tensor_algebra.py:672-674 | every coefficient of that tensor product is the expected one |
| WordMaps.FunctorExampleReduced | src/sage/algebras/tensor_algebra.py:673-674 | the expected image stores no zero |
| WordMaps.FunctorExampleProduct | src/sage/algebras/tensor_algebra.py:672-674 | the tensor product of 2a + b and a + b + c is 2aa + 2ab + 2ac + ba + bb + bc |
| WordMaps.FunctorExample | src/sage/algebras/tensor_algebra.py:672-674 | `Tphi(G['x'] * G['y'])` is 2aa + 2ab + 2ac + ba + bb + bc |
| WordMaps.FunctorSumImage | src/sage/algebras/tensor_algebra.py:670-671 | x + y goes to the sum of the images of x and y on one-letter words |
| WordMaps.FunctorSumLetterX | src/sage/algebras/tensor_algebra.py:660-661 | 2a + b on one-letter words |
| WordMaps.FunctorSumLetterY | src/sage/algebras/tensor_algebra.py:660-661 | a + b + c on one-letter words |
| WordMaps.FunctorSumPoints | src/sage/algebras/tensor_algebra.py:670-671 | every coefficient of the sum is the expected one |
| WordMaps.FunctorSumReduced | src/sage/algebras/tensor_algebra.py:670-671 | the expected sum stores no zero |
| WordMaps.FunctorSumValue | src/sage/algebras/tensor_algebra.py:670-671 | the two images add up to 3a + 2b + c |
| WordMaps.FunctorSumExample | src/sage/algebras/tensor_algebra.py:670-671 | `Tphi(sum(G))` is 3a + 2b + c |
| Coproduct.MulLength | src/sage/algebras/tensor_algebra.py:571-572 | the product of lists of p and q terms has p q terms |
| Coproduct.MulTermsComplete | src/sage/algebras/tensor_algebra.py:562-572 | every product of a term of `a` with a term of `b` is a term of `Mul(a, b)`, the product of the tensor square |
| Coproduct.MulTermsSound | src/sage/algebras/tensor_algebra.py:562-572 | every term of `Mul(a, b)` is the product of a term of `a` with a term of `b` |
| Coproduct.WeightMulLeft | src/sage/algebras/tensor_algebra.py:571-572 | the coefficient of a pair in a term times a list is the list paired with what the term contributes to that pair |
| Coproduct.WeightMulLeftCoefficient | src/sage/algebras/tensor_algebra.py:571-572 | a term times a list is linear in the term's coefficient |
| Coproduct.WeightMul | src/sage/algebras/tensor_algebra.py:571-572 | the coefficient of a pair in a product is the left factor paired with what each of its indices contributes |
| Coproduct.WeightMulRight | src/sage/algebras/tensor_algebra.py:571-572 | lists of terms adding up to the same element give products with the same coefficients on every pair |
| Coproduct.MulCollectLeft | src/sage/algebras/tensor_algebra.py:571-572 | the collected product depends only on the element the left factor adds up to, so multiplying term lists is multiplying the reduced elements `S.prod` multiplies |
| Coproduct.MulCollectRight | src/sage/algebras/tensor_algebra.py:571-572 | the collected product depends only on the element the right factor adds up to |
| Coproduct.MulAppendLeft | src/sage/algebras/tensor_algebra.py:571-572 | the product distributes over putting left factors together |
| Coproduct.MulLeftAppend | src/sage/algebras/tensor_algebra.py:571-572 | a term times two lists put together is the two products put together |
| Coproduct.MulTermAssociative | src/sage/algebras/tensor_algebra.py:571-572 | the product of terms of the tensor square is associative |
| Coproduct.MulLeftMulLeft | src/sage/algebras/tensor_algebra.py:571-572 | multiplying by st is multiplying by t, then by s |
| Coproduct.MulOfMulLeft | src/sage/algebras/tensor_algebra.py:571-572 | (s b) c is s (b c) |
| Coproduct.MulAssociative | src/sage/algebras/tensor_algebra.py:571-572 | the product of the tensor square is associative, so the grouping of `S.prod` does not matter |
| Coproduct.MulUnit | src/sage/algebras/tensor_algebra.py:560-562 | `S.one()`, the term list `Unit` holding 1 # 1, is a two-sided unit for the product of the tensor square |
| Coproduct.MulUnitLeft | src/sage/algebras/tensor_algebra.py:560-562 | 1 # 1 is a left unit |
| Coproduct.MulLeftUnit | src/sage/algebras/tensor_algebra.py:560-562 | the term 1 # 1 times a list is the list |
| Coproduct.MulUnitRight | src/sage/algebras/tensor_algebra.py:560-562 | 1 # 1 is a right unit |
| Coproduct.MulLeftByUnit | src/sage/algebras/tensor_algebra.py:560-562 | a term times 1 # 1 is that term |
| Coproduct.CoproductOnBasis | src/sage/algebras/tensor_algebra.py:532-572 | the coproduct of a basis word is an element of the tensor square, stored without zeros |
| Coproduct.CoproductIsProductOfPrimitives | src/sage/algebras/tensor_algebra.py:560-572 | the three branches of `coproduct_on_basis` (`CoproductTerms`: `S.one()` for the empty word, m # 1 + 1 # m for a generator, the product otherwise) all equal `ProductOfPrimitives`, the running product of the primitive coproducts `Primitive` g # 1 + 1 # g of the letters |
| Coproduct.ProductOfPrimitivesAppend | src/sage/algebras/tensor_algebra.py:569-572 | the running product over two words put together is the product of the two running products |
| Coproduct.CoproductMultiplicative | src/sage/algebras/tensor_algebra.py:552-558 | the coproduct of ab is the product of the coproducts of a and b |
| Coproduct.CoproductExample | src/sage/algebras/tensor_algebra.py:552-558 | the coproduct of abc is that of a times that of b times that of c |
| Coproduct.CoproductSmallExamples | src/sage/algebras/tensor_algebra.py:540-544 | the coproduct of the empty word is 1 # 1, and that of a generator g is g # 1 + 1 # g |
| Coproduct.MulPrimitiveShape | src/sage/algebras/tensor_algebra.py:571-572 | multiplying by a primitive coproduct raises the total length of every term by one and keeps the coefficients 1 |
| Coproduct.CoproductShape | src/sage/algebras/tensor_algebra.py:569-572 | `ProductOfPrimitives` of a word of length n has 2^n terms, each with coefficient 1 and components of total length n |
| Coproduct.CoproductDegree | src/sage/algebras/tensor_algebra.py:532-572 | every basis pair (u, v) in the coproduct of m has degree(u) + degree(v) = degree(m) |
| Coproduct.SumUnitriangular | src/sage/algebras/tensor_algebra.py:569-572 | terms with coefficient 1 add up to their number |
| Coproduct.CoproductTotal | src/sage/algebras/tensor_algebra.py:532-572 | the coefficients of the coproduct of a word of length n add up to 2^n |
| Coproduct.WeightMulPrimitive | src/sage/algebras/tensor_algebra.py:571-572 | after multiplying by g # 1 + 1 # g, the coefficient of (a, b) is that of (a without a final g, b) plus that of (a, b without a final g) |
| Coproduct.CounitLeft | src/sage/algebras/tensor_algebra.py:532-572 | the coefficient of 1 # v in the coproduct of m is 1 when v is m, else 0 |
| Coproduct.CounitRight | src/sage/algebras/tensor_algebra.py:532-572 | the coefficient of u # 1 in the coproduct of m is 1 when u is m, else 0 |
| Coproduct.CoproductCounit | src/sage/algebras/tensor_algebra.py:490-572 | the counit axioms: (counit # id) and (id # counit) of the coproduct of m give m back |
| Coproduct.ProductOfPrimitivesSymmetric | src/sage/algebras/tensor_algebra.py:569-572 | in the running product of primitive coproducts, (a, b) and (b, a) have the same coefficient |
| Coproduct.CoproductCocommutative | src/sage/algebras/tensor_algebra.py:71 | the coproduct is cocommutative: u # v and v # u have the same coefficient in the coproduct of every basis word |
| Coproduct.AntipodeConvolutionTerm | src/sage/algebras/tensor_algebra.py:510-530 | (antipode # id) then the product, on one term c u # v: the antipode of u is supported on the reversal of u alone, the reversal times v is the monomial of reverse(u) v, and the term collects to c times the antipode's coefficient on that word |
| Coproduct.AntipodeConvolutionAppend | src/sage/algebras/tensor_algebra.py:510-530 | the convolution of two term lists put together is the two convolutions put together |
| Coproduct.SignedSuccessor | src/sage/algebras/tensor_algebra.py:527 | one more letter flips the sign |
| Coproduct.ConvolutionOfMulLeftPrimitive | src/sage/algebras/tensor_algebra.py:510-572 | the convolution of a term times g # 1 + 1 # g is two terms that differ only in sign and in which end g sits |
| Coproduct.ConvolutionMulPrimitive | src/sage/algebras/tensor_algebra.py:510-572 | after multiplying by a primitive coproduct, the coefficient of w is that of w without a final g, minus that of w without a first g |
| Coproduct.ConvolutionOfUnit | src/sage/algebras/tensor_algebra.py:560-562 | the convolution of 1 # 1 is the unit |
| Coproduct.AntipodeAxiomWeight | src/sage/algebras/tensor_algebra.py:510-572 | the convolution of the coproduct of m gives w coefficient 1 when m and w are both empty, and 0 otherwise |
| Coproduct.AntipodeAxiom | src/sage/algebras/tensor_algebra.py:510-572 | the antipode axiom on basis vectors: the product after (antipode # id) of the coproduct of m is counit(m) times 1 |
| Coproduct.AntipodeConvolutionRightTerm | src/sage/algebras/tensor_algebra.py:510-530 | (id # antipode) then the product, on one term c u # v: the antipode of v is supported on the reversal of v alone, u times that reversal is the monomial of u reverse(v), and the term collects to c times the antipode's coefficient on that reversal |
| Coproduct.ConvolutionRightOfMulLeftPrimitive | src/sage/algebras/tensor_algebra.py:510-572 | a term times g # 1 + 1 # g gives two terms that (id # antipode) then the product sends to the same word with opposite signs |
| Coproduct.ConvolutionRightMulPrimitive | src/sage/algebras/tensor_algebra.py:510-572 | after a primitive factor, (id # antipode) then the product gives every word coefficient 0 |
| Coproduct.AntipodeAxiomRightWeight | src/sage/algebras/tensor_algebra.py:510-572 | (id # antipode) then the product gives w coefficient 1 when m and w are both empty, and 0 otherwise |
| Coproduct.AntipodeAxiomRight | src/sage/algebras/tensor_algebra.py:510-572 | the antipode axiom on the other side: the product after (id # antipode) of the coproduct of m is counit(m) times 1 |
| DevTools.Cmp | src/sage/misc/dev_tools.py:33 | Python 2 `cmp` on integers: 0 exactly on equality, negative exactly when the first is smaller, always -1, 0 or 1 |
| DevTools.StringCmp | src/sage/misc/dev_tools.py:35 | Python 2 `cmp` on strings is -1, 0 or 1 |
| DevTools.Count | src/sage/misc/dev_tools.py:33 | `s.count(c)` is at most the length of s |
| DevTools.CountMultiplicity | src/sage/misc/dev_tools.py:33 | `s.count(c)` is the multiplicity of c in s |
| DevTools.CountAppend | src/sage/misc/dev_tools.py:33 | counting over two strings put together adds the counts |
| DevTools.CountAbsent | src/sage/misc/dev_tools.py:33 | an absent character counts 0 |
| DevTools.SubmoduleDepth | src/sage/misc/dev_tools.py:33 | a submodule a.b of a top-level name a has one dot more than b |
| DevTools.ModuleNamesCmp | src/sage/misc/dev_tools.py:17-35 | `module_names_cmp` is -1, 0 or 1 |
| DevTools.StringCmpZero | src/sage/misc/dev_tools.py:35 | string comparison is 0 exactly on equal strings |
| DevTools.StringCmpAntisymmetric | src/sage/misc/dev_tools.py:35 | swapping the strings negates their comparison |
| DevTools.StringCmpTransitive | src/sage/misc/dev_tools.py:35 | string comparison is transitive |
| DevTools.StringCmpCommonPrefix | src/sage/misc/dev_tools.py:35 | a common prefix does not change the comparison |
| DevTools.ModuleNamesCmpZero | src/sage/misc/dev_tools.py:33-35 | `module_names_cmp` is 0 exactly when the names are equal |
| DevTools.ModuleNamesCmpAntisymmetric | src/sage/misc/dev_tools.py:33-35 | `module_names_cmp(y, x)` is `-module_names_cmp(x, y)` |
| DevTools.ModuleNamesCmpTransitive | src/sage/misc/dev_tools.py:33-35 | the order on module names is transitive |
| DevTools.ModuleNamesCmpDepth | src/sage/misc/dev_tools.py:33-35 | fewer dots always come first, and on equal dot count the names compare as strings |
| DevTools.SortedFromNeighbours | src/sage/misc/dev_tools.py:28-31 | a list whose neighbours are in increasing order is sorted |
| DevTools.DepthOfSageAll | src/sage/misc/dev_tools.py:29 | `sage.all` has one dot |
| DevTools.DepthOfSageCombinat | src/sage/misc/dev_tools.py:29 | `sage.combinat` has one dot |
| DevTools.DepthOfSageGroups | src/sage/misc/dev_tools.py:29 | `sage.groups.perm_gps` has two dots |
| DevTools.DepthOfSagePlot | src/sage/misc/dev_tools.py:29 | `sage.plot.plot3d` has two dots |
| DevTools.ExampleOrderFirst | src/sage/misc/dev_tools.py:29-31 | `sage.all` comes before `sage.combinat` |
| DevTools.FirstDifference | src/sage/misc/dev_tools.py:35 | two names agreeing on their first n characters compare as their next characters do |
| DevTools.ExampleAlphabetical | src/sage/misc/dev_tools.py:35 | the doctest's two equal-depth neighbour pairs, `sage.all`/`sage.combinat` and `sage.groups.perm_gps`/`sage.plot.plot3d`, are in alphabetical order |
| DevTools.ExampleOrderSecond | src/sage/misc/dev_tools.py:29-31 | `sage.combinat` comes before `sage.groups.perm_gps` |
| DevTools.ExampleOrderThird | src/sage/misc/dev_tools.py:29-31 | `sage.groups.perm_gps` comes before `sage.plot.plot3d` |
| DevTools.SortedOfFour | src/sage/misc/dev_tools.py:30-31 | four names with neighbours in increasing order are sorted |
| DevTools.ModuleNamesSortedExample | src/sage/misc/dev_tools.py:29-31 | the doctest's result list is in increasing order |
| DevTools.ModuleNamesSortPermutation | src/sage/misc/dev_tools.py:29-31 | the doctest's result list is a rearrangement of its input list |
| DevTools.Answer.constructor | src/sage/misc/dev_tools.py:92 | a new list is empty |
| DevTools.PrintOrUpdate | src/sage/misc/dev_tools.py:84-105 | with a list, exactly the given string is appended at its end and the earlier entries stay |
| DevTools.JoinLength | src/sage/misc/dev_tools.py:99 | the joined string is as long as the pieces together |
| DevTools.HelloWorld | src/sage/misc/dev_tools.py:92-100 | appending "hello", " ", "world", "!" to an empty list and joining gives "hello world!" |
| DevTools.HelloWorldJoin | src/sage/misc/dev_tools.py:99-100 | joining those four strings gives "hello world!" |
| DevTools.PrintImportStatement | src/sage/misc/dev_tools.py:107-129 | with a list, exactly the import statement of the lazy flag is appended |
| DevTools.FirstSeparator | src/sage/misc/dev_tools.py:126-129 | a separator whose first character is absent from the module name first occurs right after the name |
| DevTools.SplitUnique | src/sage/misc/dev_tools.py:126-129 | such a separator splits a statement in one way only |
| DevTools.DottedNameSeparators | src/sage/misc/dev_tools.py:113 | a module name has neither spaces nor quotes |
| DevTools.ImportStatement | src/sage/misc/dev_tools.py:126-129 | the lazy statement is the two names with 19 fixed characters, the other with 13, and the module stands right after `lazy_import('` or `from ` |
| DevTools.ImportStatementInjective | src/sage/misc/dev_tools.py:126-129 | for dotted module names, the printed statement determines the lazy flag, the module and the name |
| DevTools.LazyImportInjective | src/sage/misc/dev_tools.py:127 | `lazy_import('M', 'N')` determines M and N |
| DevTools.FromImportInjective | src/sage/misc/dev_tools.py:129 | `from M import N` determines M and N |
| DevTools.FromImportExample | src/sage/misc/dev_tools.py:121-122 | the non-lazy statement for `print_import_statement` is `from sage.misc.dev_tools import print_import_statement` |
| DevTools.LazyImportExample | src/sage/misc/dev_tools.py:123-124 | the lazy statement is `lazy_import('sage.misc.dev_tools', 'print_import_statement')` |
| DevTools.NotAllModules | src/sage/misc/dev_tools.py:339-340 | the filtered list is no longer than its input and holds no name ending in `all` or `all_cmdline` |
| DevTools.NotAllModulesMembers | src/sage/misc/dev_tools.py:339-340 | the filter keeps a name exactly when it is listed and ends in neither `all` nor `all_cmdline`, as many times as it is listed |
| DevTools.NotAllModulesAppend | src/sage/misc/dev_tools.py:339-340 | filtering two lists put together puts their filtered lists together, so the relative order is kept |
| DevTools.NotAllModulesSingle | src/sage/misc/dev_tools.py:339-340 | a one-name list keeps its name exactly when the name is not an `all` module |
| DevTools.NotAllModulesIdempotent | src/sage/misc/dev_tools.py:339-340 | filtering twice is filtering once |
| DevTools.KeptExample | src/sage/misc/dev_tools.py:339-340 | `sage.misc.dev_tools` is kept |
| DevTools.DroppedExamples | src/sage/misc/dev_tools.py:339-340 | `sage.misc.all`, `sage.all_cmdline` and `sage.misc.install` are dropped |
| DevTools.NotAllModulesKeepsFirst | src/sage/misc/dev_tools.py:339-340 | of four names of which only the first is kept, the filter returns the first |
| DevTools.NotAllModulesExample | src/sage/misc/dev_tools.py:339-340 | of those four names only `sage.misc.dev_tools` survives |

## Left out

- Coefficients are integers (the ring ZZ). The doctests over QQ use only
  integer coefficients. Division and other base rings are not modelled.
- The index set is the whole Dafny type `I`. The source's finite or lazy
  family of indices, and the membership tests against it, are not modelled.
- Parents, categories, morphism objects and the coercion framework are not
  modelled:
  - `CombinatorialFreeModule`, `GradedHopfAlgebrasWithBasis`, `Hom`,
    `Morphism`, `ConstructionFunctor`, construction ranks;
  - the coercions from the base ring and from the base module, and the
    fall-through to the parent class (tensor_algebra.py:20-30, 107-110,
    344-357, 378, 586-644).
  - Only the maps on coefficients are modelled.
- The coercion from a tensor product of modules (tensor_algebra.py:367-376)
  is not modelled. It needs the `CombinatorialFreeModule_Tensor` parent,
  which is not part of this model. The coercion from another tensor algebra
  is modelled as `WordMaps.MapOnBasis`.
- `module_morphism` is represented by `WordMaps.Apply`, a linear extension
  over a list of terms; `WordMaps.ApplyCollect` shows its value depends
  only on the element the list adds up to. Linear extension of the antipode is
  `TensorAlgebra.Antipode`, and that of the coproduct is a `Collect` of its
  term list.
- Rendering is not modelled: `_repr_term`, `_latex_term` and
  `_ascii_art_term` (tensor_algebra.py:127-212).
- The commented-out shuffle coproduct after the `return` is dead code
  (tensor_algebra.py:574-581).
- `Coproduct.CoproductOnBasis` works on lists of terms in the tensor square
  and collects like terms at the end. The source multiplies reduced elements
  one at a time. `Coproduct.MulCollectLeft` and `Coproduct.MulCollectRight`
  show that the collected product of two term lists depends only on the
  elements they add up to, so both give the same coefficients. `Coproduct.ProductOfPrimitives` folds from the left,
  while the grouping used by `S.prod` is not fixed. `Coproduct.MulAssociative`
  shows that the grouping does not matter.
- `TensorAlgebra.ExtendRow` and `TensorAlgebra.ExtendFactor` are the inner
  loops of `_tensor_constructor_`, split into their own methods. The source
  iterates over dictionaries in insertion order; the model picks keys in an
  unspecified order. The result does not depend on the order.
- TensorAlgebra.ElementConstructor: the last case, where any other input
  goes to the generic free-module constructor, is not modelled. The model
  returns `None` for it.
- `runsnake` is profiling and shell I/O (dev_tools.py:37-82).
- The search in `import_statements` is not modelled (dev_tools.py:251-420).
  It inspects the running interpreter's modules, scans sources with regular
  expressions and prints warnings. Only its `not_all_modules` filter is
  modelled. Its `sorted(..., cmp=module_names_cmp, reverse=True)` call
  (dev_tools.py:338) is not modelled as a sort. The model proves that the
  comparison is a strict total order, and checks the documented sort example
  by sortedness and permutation.
- DevTools.PrintOrUpdate: when `data` is `None` the source prints the string
  to standard output. The model leaves that branch as changing nothing.
- DevTools.PrintImportStatement: the same applies when `answer` is `None`.
- DevTools.StringCmp: Python 2 compares byte strings byte by byte. The model
  compares characters by code point, which is the same for the ASCII module
  names involved.
- DevTools.Join: only its empty case is stated on the function; its length
  is in `DevTools.JoinLength`, and the doctest's value in
  `DevTools.HelloWorldJoin`.
- Examples whose values are generic are stated over any letters
  (for instance `TensorAlgebra.AntipodeExampleOdd(a, b, c)`), and their
  character instances where the doctest names them.
