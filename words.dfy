/** Words over an index set, and the run-length form in which the free monoid
    on that index set stores them: a word such as a b b b is kept as the runs
    (a, 1) (b, 3), with exponents positive and neighbouring generators distinct. */
module Words {

  /** A run: a generator together with how many times it repeats. */
  type Run<I> = (I, nat)

  /** The word read backwards. */
  function Reverse<T>(s: seq<T>): (r: seq<T>)
    ensures |r| == |s|
    ensures forall i :: 0 <= i < |s| ==> r[i] == s[|s| - 1 - i]
  {
    if s == [] then [] else Reverse(s[1..]) + [s[0]]
  }

  lemma ReverseAppend<T>(a: seq<T>, b: seq<T>)
    ensures Reverse(a + b) == Reverse(b) + Reverse(a)
  {
    assert forall i :: 0 <= i < |a| + |b| ==> Reverse(a + b)[i] == (Reverse(b) + Reverse(a))[i];
  }

  lemma ReverseInvolution<T>(s: seq<T>)
    ensures Reverse(Reverse(s)) == s
  {
  }

  /** `e` copies of generator `x`: what `for dummy in range(e)` produces. */
  function Repeat<I>(x: I, e: nat): (r: seq<I>)
    ensures |r| == e
    ensures forall i :: 0 <= i < e ==> r[i] == x
  {
    if e == 0 then [] else [x] + Repeat(x, e - 1)
  }

  /** The length of a free-monoid element: the sum of its exponents. */
  function Length<I>(runs: seq<Run<I>>): nat
  {
    if runs == [] then 0 else runs[0].1 + Length(runs[1..])
  }

  /** The flat word of a run-length form (`[k for k, e in runs for _ in range(e)]`). */
  function Expand<I>(runs: seq<Run<I>>): (w: seq<I>)
    ensures |w| == Length(runs)
  {
    if runs == [] then [] else Repeat(runs[0].0, runs[0].1) + Expand(runs[1..])
  }

  /** The normal form the free monoid keeps: positive exponents and no two
      neighbouring runs on the same generator. */
  ghost predicate Normal<I>(runs: seq<Run<I>>)
  {
    && (forall i :: 0 <= i < |runs| ==> runs[i].1 > 0)
    && (forall i :: 0 < i < |runs| ==> runs[i - 1].0 != runs[i].0)
  }

  /** The run-length normal form of a word. */
  function Compress<I(==)>(w: seq<I>): (runs: seq<Run<I>>)
    ensures Normal(runs)
    ensures Expand(runs) == w
    ensures w != [] ==> runs != [] && runs[0].0 == w[0]
  {
    if w == [] then []
    else
      var rest := Compress(w[1..]);
      if rest != [] && rest[0].0 == w[0] then
        assert Expand(rest) == Repeat(rest[0].0, rest[0].1) + Expand(rest[1..]);
        [(w[0], rest[0].1 + 1)] + rest[1..]
      else
        [(w[0], 1)] + rest
  }

  /** Prepending a block of a generator that differs from the word's first
      letter adds exactly one run in front. */
  lemma {:induction false} CompressRepeat<I>(x: I, e: nat, w: seq<I>)
    requires e > 0
    requires w != [] ==> w[0] != x
    ensures Compress(Repeat(x, e) + w) == [(x, e)] + Compress(w)
  {
    var tail := Repeat(x, e - 1) + w;
    RepeatCons(x, e, w);
    CompressCons(x, tail);
    if e == 1 {
      assert tail == w;
    } else {
      CompressRepeat(x, e - 1, w);
    }
  }

  lemma RepeatCons<I>(x: I, e: nat, w: seq<I>)
    requires e > 0
    ensures Repeat(x, e) + w == [x] + (Repeat(x, e - 1) + w)
  {
  }

  /** One step of the compression: the first letter joins the first run when
      that run is on the same generator, and starts a run of its own otherwise. */
  lemma CompressCons<I>(x: I, tail: seq<I>)
    ensures Compress([x] + tail) ==
      var rest := Compress(tail);
      if rest != [] && rest[0].0 == x then [(x, rest[0].1 + 1)] + rest[1..] else [(x, 1)] + rest
  {
    assert ([x] + tail)[1..] == tail;
  }

  /** The normal form is unique: a normal run list is the compression of its word. */
  lemma {:induction false} CompressExpand<I>(runs: seq<Run<I>>)
    requires Normal(runs)
    ensures Compress(Expand(runs)) == runs
  {
    if runs != [] {
      var rest := runs[1..];
      assert Normal(rest) by {
        assert forall i :: 0 <= i < |rest| ==> rest[i] == runs[i + 1];
      }
      CompressExpand(rest);
      assert Expand(rest) != [] ==> Expand(rest)[0] == rest[0].0 by {
        if rest != [] {
          assert Expand(rest) == Repeat(rest[0].0, rest[0].1) + Expand(rest[1..]);
        }
      }
      CompressRepeat(runs[0].0, runs[0].1, Expand(rest));
      assert [runs[0]] + rest == runs;
    }
  }

  lemma {:induction false} LengthAppend<I>(a: seq<Run<I>>, b: seq<Run<I>>)
    ensures Length(a + b) == Length(a) + Length(b)
  {
    if a == [] {
      assert a + b == b;
    } else {
      assert (a + b)[0] == a[0];
      assert (a + b)[1..] == a[1..] + b;
      LengthAppend(a[1..], b);
    }
  }

  lemma {:induction false} ExpandAppend<I>(a: seq<Run<I>>, b: seq<Run<I>>)
    ensures Expand(a + b) == Expand(a) + Expand(b)
  {
    if a == [] {
      assert a + b == b;
    } else {
      assert (a + b)[0] == a[0];
      assert (a + b)[1..] == a[1..] + b;
      ExpandAppend(a[1..], b);
    }
  }

  lemma ReverseRepeat<I>(x: I, e: nat)
    ensures Reverse(Repeat(x, e)) == Repeat(x, e)
  {
  }

  /** Reversing the runs and then expanding is reversing the expanded word:
      this is why the antipode may reverse the stored runs directly. */
  lemma {:induction false} ExpandReverse<I>(runs: seq<Run<I>>)
    ensures Expand(Reverse(runs)) == Reverse(Expand(runs))
  {
    if runs != [] {
      ExpandReverse(runs[1..]);
      ExpandAppend(Reverse(runs[1..]), [runs[0]]);
      assert Expand([runs[0]]) == Repeat(runs[0].0, runs[0].1);
      ReverseRepeat(runs[0].0, runs[0].1);
      ReverseAppend(Repeat(runs[0].0, runs[0].1), Expand(runs[1..]));
    }
  }

  /** The reversed runs of a normal form are again a normal form, so building a
      monoid element from them needs no renormalisation. */
  lemma ReverseNormal<I>(runs: seq<Run<I>>)
    requires Normal(runs)
    ensures Normal(Reverse(runs))
  {
    var r := Reverse(runs);
    forall i | 0 < i < |r|
      ensures r[i - 1].0 != r[i].0
    {
      assert r[i - 1] == runs[|runs| - i] && r[i] == runs[|runs| - 1 - i];
    }
  }

  /** The length of the reversed element is the length of the word. */
  lemma ReverseLength<I>(runs: seq<Run<I>>)
    ensures Length(Reverse(runs)) == Length(runs)
  {
    ExpandReverse(runs);
  }

  /** Dropping the last element of `s + t`, for a nonempty `t`. */
  lemma AppendButLast<T>(s: seq<T>, t: seq<T>)
    requires t != []
    ensures (s + t)[..|s + t| - 1] == s + t[..|t| - 1]
    ensures (s + t)[|s + t| - 1] == t[|t| - 1]
  {
  }

  /** A nonempty sequence is its front followed by its last element. */
  lemma ButLastAppendLast<T>(s: seq<T>)
    requires s != []
    ensures s[..|s| - 1] + [s[|s| - 1]] == s
  {
  }

  lemma ConcatAssociative<T>(a: seq<T>, b: seq<T>, c: seq<T>)
    ensures (a + b) + c == a + (b + c)
  {
  }
}
