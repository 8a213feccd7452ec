/** What the Element operations compute, on coefficient maps (element.py): the sum
    and product before simplification, equality, indexing, renaming, and each
    operation by the type of its other operand. */
module Arithmetic {
  import opened Wrappers
  import opened Words
  import opened Relations
  import opened Coefficients
  import opened Simplifier
  import Tools

  // ---------------------------------------------------------------------------
  // Sum: `{vw: self[vw] + other[vw] for vw in set(self.terms).union(other.terms)}`
  // ---------------------------------------------------------------------------

  /** The words of `a`, then those of `b` that are not in `a`, in their order. */
  function Union(a: seq<Word>, b: seq<Word>): seq<Word> {
    if b == [] then a
    else
      var u := Union(a, b[..|b| - 1]);
      if b[|b| - 1] in u then u else u + [b[|b| - 1]]
  }

  lemma {:induction false} UnionMeaning(a: seq<Word>, b: seq<Word>)
    requires forall i, j | 0 <= i < j < |a| :: a[i] != a[j]
    ensures forall w :: w in Union(a, b) <==> w in a || w in b
    ensures forall i, j | 0 <= i < j < |Union(a, b)| :: Union(a, b)[i] != Union(a, b)[j]
  {
    if b != [] {
      UnionMeaning(a, b[..|b| - 1]);
      assert b == b[..|b| - 1] + [b[|b| - 1]];
    }
  }

  /** The dict comprehension of `__add__`. */
  function Sum(a: Terms, b: Terms): Terms {
    Terms(Union(a.order, b.order), map w | w in a.coeffs.Keys + b.coeffs.Keys :: Get(a, w) + Get(b, w))
  }

  /** Before simplification, `a + b` holds `a[w] + b[w]` for every word, and stores
      exactly the words stored in either operand. */
  lemma SumGet(a: Terms, b: Terms)
    requires Wf(a) && Wf(b)
    ensures Wf(Load(Entries(Sum(a, b))))
    ensures forall w :: Get(Load(Entries(Sum(a, b))), w) == Get(a, w) + Get(b, w)
    ensures forall w :: w in Load(Entries(Sum(a, b))).coeffs <==> w in a.coeffs || w in b.coeffs
  {
    var s := Sum(a, b);
    SumMeaning(a, b);
    EntriesGet(s, []);
    LoadGet(Entries(s), []);
    assert Load(Entries(s)).coeffs == s.coeffs;
  }

  /** The merged terms themselves: well formed, and holding the sums. */
  lemma SumMeaning(a: Terms, b: Terms)
    requires Wf(a) && Wf(b)
    ensures Wf(Sum(a, b))
    ensures forall w :: Get(Sum(a, b), w) == Get(a, w) + Get(b, w)
    ensures forall w :: w in Sum(a, b).coeffs <==> w in a.coeffs || w in b.coeffs
  {
    UnionMeaning(a.order, b.order);
  }

  // ---------------------------------------------------------------------------
  // Product: `ret.terms[vw1 * vw2] += self[vw1] * other[vw2]` over
  // `product(self.terms, other.terms)`
  // ---------------------------------------------------------------------------

  /** The first `k` steps of the inner loop for the word `w1` with coefficient `c1`. */
  function MulRow(acc: Terms, w1: Word, c1: int, b: Terms, k: nat): Terms
    requires k <= |b.order|
  {
    if k == 0 then acc
    else AddTo(MulRow(acc, w1, c1, b, k - 1), w1 + b.order[k - 1], c1 * Get(b, b.order[k - 1]))
  }

  /** The first `n` rows of the product loop, starting from an empty Element. */
  function MulRows(a: Terms, b: Terms, n: nat): Terms
    requires n <= |a.order|
  {
    if n == 0 then Zero
    else MulRow(MulRows(a, b, n - 1), a.order[n - 1], Get(a, a.order[n - 1]), b, |b.order|)
  }

  /** The row of the word `a.order[n]` turns the first `n` rows into the first `n + 1`. */
  lemma MulRowsNext(a: Terms, b: Terms, n: nat, before: Terms, after: Terms)
    requires n < |a.order| && before == MulRows(a, b, n)
    requires after == MulRow(before, a.order[n], Get(a, a.order[n]), b, |b.order|)
    ensures after == MulRows(a, b, n + 1)
  {
  }

  function Product(a: Terms, b: Terms): Terms {
    MulRows(a, b, |a.order|)
  }

  /** The sum of `c1 * b[w2]` over the first `k` words `w2` of `b` with
      `w1 + w2 == w`. */
  function RowSum(w1: Word, c1: int, b: Terms, k: nat, w: Word): int
    requires k <= |b.order|
  {
    if k == 0 then 0
    else RowSum(w1, c1, b, k - 1, w) + (if w1 + b.order[k - 1] == w then c1 * Get(b, b.order[k - 1]) else 0)
  }

  /** The sum of `a[w1] * b[w2]` over the pairs of stored words, `w1` among the
      first `n` words of `a`, with `w1 + w2 == w`. */
  function PairProductSum(a: Terms, b: Terms, n: nat, w: Word): int
    requires n <= |a.order|
  {
    if n == 0 then 0
    else PairProductSum(a, b, n - 1, w) + RowSum(a.order[n - 1], Get(a, a.order[n - 1]), b, |b.order|, w)
  }

  lemma {:induction false} MulRowGet(acc: Terms, w1: Word, c1: int, b: Terms, k: nat, w: Word)
    requires Wf(acc) && k <= |b.order|
    ensures Wf(MulRow(acc, w1, c1, b, k))
    ensures Get(MulRow(acc, w1, c1, b, k), w) == Get(acc, w) + RowSum(w1, c1, b, k, w)
  {
    if k > 0 {
      MulRowGet(acc, w1, c1, b, k - 1, w);
    }
  }

  lemma {:induction false} MulRowsGet(a: Terms, b: Terms, n: nat, w: Word)
    requires n <= |a.order|
    ensures Wf(MulRows(a, b, n))
    ensures Get(MulRows(a, b, n), w) == PairProductSum(a, b, n, w)
  {
    if n > 0 {
      MulRowsGet(a, b, n - 1, w);
      MulRowGet(MulRows(a, b, n - 1), a.order[n - 1], Get(a, a.order[n - 1]), b, |b.order|, w);
    }
  }

  /** Before simplification, `a * b` holds, for every word `w`, the sum of
      `a[w1] * b[w2]` over all pairs of stored words with `w1 + w2 == w`. */
  lemma ProductGet(a: Terms, b: Terms, w: Word)
    ensures Wf(Product(a, b))
    ensures Get(Product(a, b), w) == PairProductSum(a, b, |a.order|, w)
  {
    MulRowsGet(a, b, |a.order|, w);
  }

  /** The Element `n` before simplification: coefficient `n` on the empty word. */
  function Scalar(n: int): Terms {
    Terms([[]], map[[] := n])
  }

  /** The Element `1`. */
  const One: Terms := Scalar(1)

  lemma {:induction false} RowSumUnit(b: Terms, k: nat, w: Word)
    requires Wf(b) && k <= |b.order|
    ensures RowSum([], 1, b, k, w) == if w in b.order[..k] then Get(b, w) else 0
  {
    if k > 0 {
      RowSumUnit(b, k - 1, w);
      assert b.order[..k] == b.order[..k - 1] + [b.order[k - 1]];
      if w == b.order[k - 1] {
        assert w !in b.order[..k - 1];
      }
    }
  }

  /** One row of the product loop with a right operand whose only word is the
      empty one adds the row's word with its coefficient scaled. */
  lemma MulRowsUnitStep(a: Terms, b: Terms, n: nat)
    requires b.order == [[]] && 0 < n <= |a.order|
    ensures MulRows(a, b, n) == AddTo(MulRows(a, b, n - 1), a.order[n - 1], Get(a, a.order[n - 1]) * Get(b, []))
  {
    MulRowUnit(MulRows(a, b, n - 1), a.order[n - 1], Get(a, a.order[n - 1]), b);
  }

  lemma MulRowUnit(acc: Terms, w1: Word, c1: int, b: Terms)
    requires b.order == [[]]
    ensures MulRow(acc, w1, c1, b, 1) == AddTo(acc, w1, c1 * Get(b, []))
  {
    assert w1 + b.order[0] == w1;
  }

  lemma MulRowsStored(a: Terms, b: Terms, n: nat, w: Word)
    requires n <= |a.order|
    ensures w in MulRows(a, b, n).coeffs <==> w in MulRows(a, b, n).order
  {
    MulRowsGet(a, b, n, w);
  }

  lemma MulRowsUnitOrderStep(a: Terms, b: Terms, n: nat)
    requires b.order == [[]] && 0 < n <= |a.order|
    requires MulRows(a, b, n - 1).order == a.order[..n - 1]
    requires a.order[n - 1] !in a.order[..n - 1]
    ensures MulRows(a, b, n).order == a.order[..n]
  {
    MulRowsStored(a, b, n - 1, a.order[n - 1]);
    MulRowsUnitStep(a, b, n);
    AppendFresh(MulRows(a, b, n - 1), a.order, n, Get(a, a.order[n - 1]) * Get(b, []));
  }

  /** The product loop with a right operand whose only word is the empty one
      visits each word of `a` once, in order. */
  lemma {:induction false} MulRowsUnitOrder(a: Terms, b: Terms, n: nat)
    requires Wf(a) && b.order == [[]] && n <= |a.order|
    ensures MulRows(a, b, n).order == a.order[..n]
  {
    if n > 0 {
      MulRowsUnitOrder(a, b, n - 1);
      FreshLast(a, n);
      MulRowsUnitOrderStep(a, b, n);
    }
  }

  /** ... and stores each word of `a` with its coefficient times `s`. */
  lemma {:induction false} PairProductSumScalar(a: Terms, s: int, n: nat, w: Word)
    requires Wf(a) && n <= |a.order|
    ensures PairProductSum(a, Scalar(s), n, w) == if w in a.order[..n] then Get(a, w) * s else 0
  {
    if n > 0 {
      PairProductSumScalar(a, s, n - 1, w);
      var w1 := a.order[n - 1];
      assert w1 + Scalar(s).order[0] == w1;
      assert a.order[..n] == a.order[..n - 1] + [w1];
      assert RowSum(w1, Get(a, w1), Scalar(s), 1, w) == if w1 == w then Get(a, w1) * s else 0;
      if w == w1 {
        assert w !in a.order[..n - 1];
      }
    }
  }

  /** `a * s` for the Element `s` multiplies every coefficient of `a` by `s`,
      keeping the stored order. */
  function Scaled(a: Terms, s: int): Terms {
    Terms(a.order, map w | w in a.coeffs :: a.coeffs[w] * s)
  }

  lemma ProductScalar(a: Terms, s: int)
    requires Wf(a)
    ensures Product(a, Scalar(s)) == Scaled(a, s)
    ensures Wf(Scaled(a, s))
  {
    MulRowsUnitOrder(a, Scalar(s), |a.order|);
    assert a.order[..|a.order|] == a.order;
    forall w ensures Get(Product(a, Scalar(s)), w) == Get(Scaled(a, s), w) {
      ProductGet(a, Scalar(s), w);
      PairProductSumScalar(a, s, |a.order|, w);
    }
    ProductGet(a, Scalar(s), []);
    SameTerms(Product(a, Scalar(s)), Scaled(a, s));
  }

  /** The empty word is a unit of the product on both sides, before
      simplification. */
  lemma ProductUnit(a: Terms, w: Word)
    requires Wf(a)
    ensures Get(Product(One, a), w) == Get(a, w)
    ensures Get(Product(a, One), w) == Get(a, w)
  {
    ProductGet(One, a, w);
    RowSumUnit(a, |a.order|, w);
    assert a.order[..|a.order|] == a.order;
    assert Get(a, w) != 0 ==> w in a.order;
    ProductScalar(a, 1);
  }

  // ---------------------------------------------------------------------------
  // Equality and indexing
  // ---------------------------------------------------------------------------

  /** `all(self[x] == rhs[x] for x in set(self.terms).union(rhs.terms))`. */
  predicate SameCoefficients(a: Terms, b: Terms) {
    && (forall i | 0 <= i < |a.order| :: Get(a, a.order[i]) == Get(b, a.order[i]))
    && (forall i | 0 <= i < |b.order| :: Get(a, b.order[i]) == Get(b, b.order[i]))
  }

  /** Equality is agreement on every word; between zero-free terms (what every
      simplification leaves) it is equality of the coefficient maps. */
  lemma SameCoefficientsIff(a: Terms, b: Terms)
    requires Wf(a) && Wf(b)
    ensures SameCoefficients(a, b) <==> forall w :: Get(a, w) == Get(b, w)
    ensures NoZeros(a) && NoZeros(b) ==> (SameCoefficients(a, b) <==> a.coeffs == b.coeffs)
  {
    if SameCoefficients(a, b) {
      forall w ensures Get(a, w) == Get(b, w) {
        if w in a.coeffs {
          var i :| 0 <= i < |a.order| && a.order[i] == w;
        } else if w in b.coeffs {
          var i :| 0 <= i < |b.order| && b.order[i] == w;
        }
      }
    }
    if NoZeros(a) && NoZeros(b) && SameCoefficients(a, b) {
      forall w ensures w in a.coeffs <==> w in b.coeffs {
        assert Get(a, w) == Get(b, w);
      }
    }
  }

  /** The loop of `__getitem__` over an Element index, after its first `n` items:
      the one word with coefficient 1 seen so far, or TypeError once a
      coefficient is neither 0 nor 1 or a second 1 is seen. */
  function MarkedIn(t: Terms, n: nat): Result<Option<Word>>
    requires n <= |t.order|
  {
    if n == 0 then Success(None)
    else match MarkedIn(t, n - 1)
      case Failure(e) => Failure(e)
      case Success(vw) =>
        var v := Get(t, t.order[n - 1]);
        if v != 0 && v != 1 then Failure(TypeError)
        else if v == 1 then (if vw.Some? then Failure(TypeError) else Success(Some(t.order[n - 1])))
        else Success(vw)
  }

  function Marked(t: Terms): Result<Option<Word>> {
    MarkedIn(t, |t.order|)
  }

  /** Once the index loop has raised, the rest of the items do not matter. */
  lemma {:induction false} MarkedInFailure(t: Terms, k: nat, n: nat)
    requires k <= n <= |t.order| && MarkedIn(t, k).Failure?
    ensures MarkedIn(t, n) == MarkedIn(t, k)
    decreases n
  {
    if n > k {
      MarkedInFailure(t, k, n - 1);
    }
  }

  /** Terms holding exactly `1 * w`. */
  ghost predicate IsWord(t: Terms, w: Word) {
    forall u :: Get(t, u) == if u == w then 1 else 0
  }

  ghost predicate IsZero(t: Terms) {
    forall u :: Get(t, u) == 0
  }

  lemma {:induction false} MarkedInMeaning(t: Terms, n: nat)
    requires n <= |t.order|
    ensures MarkedIn(t, n) == Success(None) <==> forall k | 0 <= k < n :: Get(t, t.order[k]) == 0
    ensures MarkedIn(t, n).Success? && MarkedIn(t, n).value.Some? ==>
      exists i | 0 <= i < n ::
        && MarkedIn(t, n).value.value == t.order[i] && Get(t, t.order[i]) == 1
        && forall k | 0 <= k < n && k != i :: Get(t, t.order[k]) == 0
    ensures MarkedIn(t, n).Failure? ==> MarkedIn(t, n).error == TypeError
    ensures (exists i | 0 <= i < n :: Get(t, t.order[i]) == 1 && forall k | 0 <= k < n && k != i :: Get(t, t.order[k]) == 0)
      ==> MarkedIn(t, n).Success? && MarkedIn(t, n).value.Some?
  {
    if n > 0 {
      MarkedInMeaning(t, n - 1);
      if exists i | 0 <= i < n :: Get(t, t.order[i]) == 1 && forall k | 0 <= k < n && k != i :: Get(t, t.order[k]) == 0 {
        var i :| 0 <= i < n && Get(t, t.order[i]) == 1 && forall k | 0 <= k < n && k != i :: Get(t, t.order[k]) == 0;
        if i < n - 1 {
          assert forall k | 0 <= k < n - 1 && k != i :: Get(t, t.order[k]) == 0;
        } else {
          assert forall k | 0 <= k < n - 1 :: Get(t, t.order[k]) == 0;
        }
      }
    }
  }

  lemma MarkedZero(t: Terms)
    requires Wf(t)
    ensures Marked(t) == Success(None) <==> IsZero(t)
  {
    var n := |t.order|;
    MarkedInMeaning(t, n);
    if Marked(t) == Success(None) {
      forall u ensures Get(t, u) == 0 {
        if u in t.coeffs {
          var k :| 0 <= k < n && t.order[k] == u;
        }
      }
    }
  }

  lemma MarkedWordSound(t: Terms, w: Word)
    requires Wf(t) && Marked(t) == Success(Some(w))
    ensures IsWord(t, w)
  {
    var n := |t.order|;
    MarkedInMeaning(t, n);
    var i :| 0 <= i < n && w == t.order[i] && Get(t, t.order[i]) == 1
      && forall k | 0 <= k < n && k != i :: Get(t, t.order[k]) == 0;
    forall u ensures Get(t, u) == if u == w then 1 else 0 {
      if u in t.coeffs && u != w {
        var k :| 0 <= k < n && t.order[k] == u;
        assert k != i;
      }
    }
  }

  lemma MarkedWordComplete(t: Terms, w: Word)
    requires Wf(t) && IsWord(t, w)
    ensures Marked(t) == Success(Some(w))
  {
    var n := |t.order|;
    assert Get(t, w) == 1;
    var i :| 0 <= i < n && t.order[i] == w;
    forall k | 0 <= k < n && k != i ensures Get(t, t.order[k]) == 0 {
      assert t.order[k] != w;
    }
    MarkedInMeaning(t, n);
    var j :| 0 <= j < n && Marked(t).value.value == t.order[j] && Get(t, t.order[j]) == 1
      && forall k | 0 <= k < n && k != j :: Get(t, t.order[k]) == 0;
    assert t.order[j] == w;
  }

  lemma MarkedWord(t: Terms, w: Word)
    requires Wf(t)
    ensures Marked(t) == Success(Some(w)) <==> IsWord(t, w)
  {
    if Marked(t) == Success(Some(w)) {
      MarkedWordSound(t, w);
    }
    if IsWord(t, w) {
      MarkedWordComplete(t, w);
    }
  }

  /** An Element index is accepted exactly when it is `1 * w` for one word `w`
      (then it stands for `w`) or is zero (then it stands for nothing); otherwise
      it raises TypeError. */
  lemma MarkedMeaning(t: Terms)
    requires Wf(t)
    ensures Marked(t) == Success(None) <==> IsZero(t)
    ensures forall w :: Marked(t) == Success(Some(w)) <==> IsWord(t, w)
    ensures Marked(t).Failure? ==> Marked(t).error == TypeError
  {
    MarkedInMeaning(t, |t.order|);
    MarkedZero(t);
    forall w ensures Marked(t) == Success(Some(w)) <==> IsWord(t, w) {
      MarkedWord(t, w);
    }
  }

  // ---------------------------------------------------------------------------
  // Renaming: `Element.transform`
  // ---------------------------------------------------------------------------

  /** The factor a word's coefficient is multiplied by: `scalar**ex`, or with swap
      `scalar**ex1 * revscalar**ex2`, the exponents being the counts
      `VariableWord.transform` returns. */
  function Scale(w: Word, from: Name, to: Name, scalar: int, swap: bool, rev: int): int {
    if swap then Tools.Pow(scalar, multiset(w)[from]) * Tools.Pow(rev, if from != to then multiset(w)[to] else 0)
    else Tools.Pow(scalar, multiset(w)[from])
  }

  /** `newterms[newkey] = self.terms[key] * factor` for the stored words in order. */
  function RenamedPairs(t: Terms, order: seq<Word>, from: Name, to: Name, scalar: int, swap: bool, rev: int): (r: seq<Term>)
    ensures |r| == |order|
    ensures forall i | 0 <= i < |order| ::
      r[i] == Term(Get(t, order[i]) * Scale(order[i], from, to, scalar, swap, rev), RenameWord(order[i], from, to, swap))
  {
    if order == [] then []
    else
      var w := order[|order| - 1];
      RenamedPairs(t, order[..|order| - 1], from, to, scalar, swap, rev)
        + [Term(Get(t, w) * Scale(w, from, to, scalar, swap, rev), RenameWord(w, from, to, swap))]
  }

  lemma RenamedPairsSnoc(t: Terms, order: seq<Word>, i: nat, from: Name, to: Name, scalar: int, swap: bool, rev: int)
    requires i < |order|
    ensures RenamedPairs(t, order[..i + 1], from, to, scalar, swap, rev) == RenamedPairs(t, order[..i], from, to, scalar, swap, rev)
      + [Term(Get(t, order[i]) * Scale(order[i], from, to, scalar, swap, rev), RenameWord(order[i], from, to, swap))]
  {
    assert order[..i + 1][..i] == order[..i];
  }

  function Renamed(t: Terms, from: Name, to: Name, scalar: int, swap: bool, rev: int): (r: Terms)
    ensures Wf(r)
  {
    LoadGet(RenamedPairs(t, t.order, from, to, scalar, swap, rev), []);
    Load(RenamedPairs(t, t.order, from, to, scalar, swap, rev))
  }

  lemma {:induction false} LastCoeffLast(ps: seq<Term>, i: nat)
    requires i < |ps|
    requires forall k | i < k < |ps| :: ps[k].word != ps[i].word
    ensures LastCoeff(ps, ps[i].word) == ps[i].coeff
  {
    if i < |ps| - 1 {
      var init := ps[..|ps| - 1];
      assert init[i] == ps[i];
      LastCoeffLast(init, i);
    }
  }

  /** Without swap two stored words may rename to the same word; the assignment
      keeps the scaled coefficient of the later one in stored order. */
  lemma TransformKeepsLater(t: Terms, from: Name, to: Name, scalar: int, swap: bool, rev: int, i: nat)
    requires i < |t.order|
    requires forall k | i < k < |t.order| ::
      RenameWord(t.order[k], from, to, swap) != RenameWord(t.order[i], from, to, swap)
    ensures Get(Renamed(t, from, to, scalar, swap, rev), RenameWord(t.order[i], from, to, swap))
      == Get(t, t.order[i]) * Scale(t.order[i], from, to, scalar, swap, rev)
  {
    var ps := RenamedPairs(t, t.order, from, to, scalar, swap, rev);
    LoadGet(ps, ps[i].word);
    LastCoeffLast(ps, i);
  }

  /** With swap and two different names, renaming is one-to-one, so every stored
      word `w` lands on its renamed word with its coefficient scaled, and a word
      reads what its renamed word read before, scaled. */
  lemma TransformSwap(t: Terms, from: Name, to: Name, scalar: int, rev: int, u: Word)
    requires Wf(t) && from != to
    ensures Get(Renamed(t, from, to, scalar, true, rev), RenameWord(u, from, to, true))
      == Get(t, u) * Scale(u, from, to, scalar, true, rev)
  {
    var ps := RenamedPairs(t, t.order, from, to, scalar, true, rev);
    var v := RenameWord(u, from, to, true);
    LoadGet(ps, v);
    if i :| 0 <= i < |t.order| && t.order[i] == u {
      forall k | i < k < |t.order| ensures ps[k].word != ps[i].word {
        SwapInjective(t.order[k], t.order[i], from, to);
      }
      LastCoeffLast(ps, i);
    } else {
      forall k | 0 <= k < |ps| ensures ps[k].word != v {
        SwapInjective(t.order[k], u, from, to);
      }
      assert u !in t.coeffs;
    }
  }

  /** Renaming with swap and two different names is one-to-one. */
  lemma SwapInjective(a: Word, b: Word, from: Name, to: Name)
    requires from != to
    ensures RenameWord(a, from, to, true) == RenameWord(b, from, to, true) ==> a == b
  {
    RenameTwiceRestores(a, from, to);
    RenameTwiceRestores(b, from, to);
  }

  // ---------------------------------------------------------------------------
  // The operations by the type of the other operand
  // ---------------------------------------------------------------------------

  /** A Python value handed to an Element operation, told apart by what the
      operation tests: an Element (by its terms), a dict (its items in iteration
      order), a VariableWord, a Variable (by its name), a str, a Number, or
      anything else. */
  datatype Operand =
    | OTerms(t: Terms)
    | ODict(items: seq<(WordArg, int)>)
    | OWord(w: Word)
    | OVariable(name: Name)
    | OStr(s: string)
    | ONumber(n: int)
    | OOther

  /** The items of a dict argument as pairs, or the exception of the first key that
      is neither a VariableWord nor a registered Variable. */
  function DictTerms(known: set<Name>, items: seq<(WordArg, int)>): Result<seq<Term>> {
    if items == [] then Success([])
    else match DictTerms(known, items[..|items| - 1])
      case Failure(e) => Failure(e)
      case Success(ps) =>
        match WordOf(known, items[|items| - 1].0)
        case Failure(e) => Failure(e)
        case Success(w) => Success(ps + [Term(items[|items| - 1].1, w)])
  }

  /** Once a key of a prefix is rejected, the whole dict is, with the same
      exception. */
  lemma {:induction false} DictTermsPrefix(known: set<Name>, items: seq<(WordArg, int)>, n: nat)
    requires n <= |items|
    ensures DictTerms(known, items[..n]).Failure? ==> DictTerms(known, items) == DictTerms(known, items[..n])
    decreases |items| - n
  {
    if n < |items| {
      var init := items[..|items| - 1];
      assert init[..n] == items[..n];
      DictTermsPrefix(known, init, n);
    } else {
      assert items[..n] == items;
    }
  }

  /** The pairs of a dict whose keys are all VariableWords, as its items. */
  function WordItems(ps: seq<Term>): (r: seq<(WordArg, int)>)
    ensures |r| == |ps| && forall i | 0 <= i < |ps| :: r[i] == (AWord(ps[i].word), ps[i].coeff)
  {
    seq(|ps|, i requires 0 <= i < |ps| => (AWord(ps[i].word), ps[i].coeff))
  }

  lemma DictTermsSingle(known: set<Name>, w: Word, c: int)
    ensures DictTerms(known, [(AWord(w), c)]) == Success([Term(c, w)])
  {
    assert [(AWord(w), c)][..0] == [];
    assert DictTerms(known, []) == Success([]);
    assert [] + [Term(c, w)] == [Term(c, w)];
  }

  /** A dict whose keys are all words is taken as it is. */
  lemma {:induction false} DictTermsWords(known: set<Name>, ps: seq<Term>)
    ensures DictTerms(known, WordItems(ps)) == Success(ps)
  {
    if ps != [] {
      var items := WordItems(ps);
      var init := ps[..|ps| - 1];
      DictTermsWords(known, init);
      assert items[..|items| - 1] == WordItems(init);
      assert ps == init + [ps[|ps| - 1]];
    }
  }

  /** The dict an argument stands for, before simplification, as its pairs. */
  function Initial(known: set<Name>, x: Operand): Result<seq<Term>> {
    match x
    case ODict(items) => DictTerms(known, items)
    case OWord(w) => Success([Term(1, w)])
    case OVariable(n) => if n in known then Success([Term(1, [n])]) else Failure(UnknownVariableName)
    case OStr(s) => if s in known then Success([Term(1, [s])]) else Failure(UnknownVariableName)
    case ONumber(n) => Success([Term(n, [])])
    case OTerms(_) => Failure(TypeError)
    case OOther => Failure(TypeError)
  }

  /** `Element(d)` for a dict given by its pairs: copied item by item, then
      simplified. */
  function FromPairs(known: set<Name>, ps: seq<Term>, table: seq<Relation>, fuel: nat): Result<Terms> {
    LoadGet(ps, []);
    Normalize(known, Load(ps), table, fuel)
  }

  /** `Element(x)`: the dict the argument stands for, copied and simplified. */
  function Construct(known: set<Name>, table: seq<Relation>, x: Operand, fuel: nat): Result<Terms> {
    match Initial(known, x)
    case Failure(e) => Failure(e)
    case Success(ps) => FromPairs(known, ps, table, fuel)
  }

  /** The operands `+`, `*` and `==` turn into an Element first. */
  predicate Convertible(x: Operand) {
    x.OWord? || x.OVariable? || x.ONumber?
  }

  /** `a + x`. */
  function Plus(known: set<Name>, table: seq<Relation>, a: Terms, x: Operand, fuel: nat): Result<Terms> {
    if x.OTerms? then FromPairs(known, Entries(Sum(a, x.t)), table, fuel)
    else if Convertible(x) then
      match Construct(known, table, x, fuel)
      case Failure(e) => Failure(e)
      case Success(b) => FromPairs(known, Entries(Sum(a, b)), table, fuel)
    else Failure(ReturnedTypeError)
  }

  /** Every `vw1 * vw2` of the product loop holds only registered names, so none
      of the concatenations raises. */
  predicate Concatenable(known: set<Name>, a: Terms, b: Terms) {
    forall i, j | 0 <= i < |a.order| && 0 <= j < |b.order| :: AllKnown(known, a.order[i] + b.order[j])
  }

  /** Every `w1 * vw2` of one row of the product loop holds only registered names. */
  predicate RowConcatenable(known: set<Name>, w1: Word, b: Terms) {
    forall j | 0 <= j < |b.order| :: AllKnown(known, w1 + b.order[j])
  }

  /** The first `n` rows of the product loop raise nothing. */
  predicate ConcatenableUpTo(known: set<Name>, a: Terms, b: Terms, n: nat)
    requires n <= |a.order|
  {
    forall i | 0 <= i < n :: RowConcatenable(known, a.order[i], b)
  }

  /** The product loop raises nothing exactly when none of its rows does; a row
      that raises makes the whole product raise. */
  lemma ConcatenableRows(known: set<Name>, a: Terms, b: Terms, n: nat)
    requires n <= |a.order|
    ensures Concatenable(known, a, b) <==> ConcatenableUpTo(known, a, b, |a.order|)
    ensures n < |a.order| && !RowConcatenable(known, a.order[n], b) ==> !Concatenable(known, a, b)
  {
    if ConcatenableUpTo(known, a, b, |a.order|) {
      forall i, j | 0 <= i < |a.order| && 0 <= j < |b.order| ensures AllKnown(known, a.order[i] + b.order[j]) {
        assert RowConcatenable(known, a.order[i], b);
      }
    }
  }

  /** The product of two Elements: the loop, which raises `UnknownVariableName`
      at a concatenation with an unregistered name, then `_simplify`. */
  function Multiply(known: set<Name>, table: seq<Relation>, a: Terms, b: Terms, fuel: nat): Result<Terms> {
    if !Concatenable(known, a, b) then Failure(UnknownVariableName)
    else
      ProductGet(a, b, []);
      Normalize(known, Product(a, b), table, fuel)
  }

  /** `a * x`. */
  function Times(known: set<Name>, table: seq<Relation>, a: Terms, x: Operand, fuel: nat): Result<Terms> {
    if x.OTerms? then Multiply(known, table, a, x.t, fuel)
    else if Convertible(x) then
      match Construct(known, table, x, fuel)
      case Failure(e) => Failure(e)
      case Success(b) => Multiply(known, table, a, b, fuel)
    else Failure(TypeError)
  }

  /** `a - x`, which is `a + x * -1`: an Element is negated by `*`, a Number by
      arithmetic; `'...' * -1` is the empty str, for which `+` hands back
      TypeError; a VariableWord, a Variable and anything else raise TypeError in
      `x * -1`. */
  function Minus(known: set<Name>, table: seq<Relation>, a: Terms, x: Operand, fuel: nat): Result<Terms> {
    match x
    case OTerms(b) =>
      (match Times(known, table, b, ONumber(-1), fuel)
       case Failure(e) => Failure(e)
       case Success(nb) => Plus(known, table, a, OTerms(nb), fuel))
    case ONumber(n) => Plus(known, table, a, ONumber(n * -1), fuel)
    case OStr(_) => Plus(known, table, a, OStr(""), fuel)
    case _ => Failure(TypeError)
  }

  /** `a == x`. */
  function Equal(known: set<Name>, table: seq<Relation>, a: Terms, x: Operand, fuel: nat): Result<bool> {
    if x.OTerms? then Success(SameCoefficients(a, x.t))
    else if Convertible(x) then
      match Construct(known, table, x, fuel)
      case Failure(e) => Failure(e)
      case Success(b) => Success(SameCoefficients(a, b))
    else Failure(TypeError)
  }

  /** `a[index]`: None stands for the None the source returns. */
  function Coefficient(known: set<Name>, a: Terms, index: Operand): Result<Option<int>> {
    match index
    case OWord(w) => Success(Some(Get(a, w)))
    case OVariable(n) => if n in known then Success(Some(Get(a, [n]))) else Failure(UnknownVariableName)
    case ONumber(n) => if n == 1 then Success(Some(Get(a, []))) else Success(None)
    case OTerms(u) =>
      (match Marked(u)
       case Failure(e) => Failure(e)
       case Success(None) => Success(None)
       case Success(Some(w)) => Success(Some(Get(a, w))))
    case _ => Success(None)
  }

  // ---------------------------------------------------------------------------
  // Properties of the operations
  // ---------------------------------------------------------------------------

  /** The empty word holds no nonempty left-hand side, so the terms of a Number
      are never rewritten. */
  lemma EmptyWordReduced(t: Terms, table: seq<Relation>)
    requires forall i | 0 <= i < |t.order| :: t.order[i] == []
    ensures Reduced(t, table)
  {
    forall i, j | 0 <= i < |t.order| && 0 <= j < |table| ensures !Fires(t.order[i], table[j].lhs) {
      FiresIff(t.order[i], table[j].lhs);
    }
  }

  /** `Element(n)` holds `n` on the empty word and nothing else, whatever the rules. */
  lemma ConstructNumber(known: set<Name>, table: seq<Relation>, n: int, fuel: nat)
    requires fuel > 0
    ensures Construct(known, table, ONumber(n), fuel).Success?
    ensures forall w :: Get(Construct(known, table, ONumber(n), fuel).value, w) == if w == [] then n else 0
    ensures n != 0 ==> Construct(known, table, ONumber(n), fuel) == Success(Scalar(n))
  {
    var t := Scalar(n);
    assert [Term(n, [])][..0] == [];
    assert Load([]) == Zero;
    assert Load([Term(n, [])]) == t;
    EmptyWordReduced(t, table);
    ReducedNormalize(known, t, table, fuel);
    assert Construct(known, table, ONumber(n), fuel) == Success(Prune(t));
    PruneMeaning(t);
    if n != 0 {
      assert NoZeros(t);
    }
  }

  /** `Element(w)` for a word in which no rule fires holds `1 * w`; the same for a
      registered Variable or name. Anything that is not a dict, a word, a Variable,
      a str or a Number raises TypeError. */
  lemma ConstructWord(known: set<Name>, table: seq<Relation>, x: Operand, w: Word, fuel: nat)
    requires fuel > 0
    requires x == OWord(w) || (|w| == 1 && w[0] in known && (x == OVariable(w[0]) || x == OStr(w[0])))
    requires forall j | 0 <= j < |table| :: !Fires(w, table[j].lhs)
    ensures Construct(known, table, x, fuel) == Success(Terms([w], map[w := 1]))
  {
    assert x.OWord? || [w[0]] == w;
    assert Initial(known, x) == Success([Term(1, w)]);
    FromPairsSingle(known, table, w, fuel);
  }

  lemma FromPairsSingle(known: set<Name>, table: seq<Relation>, w: Word, fuel: nat)
    requires fuel > 0
    requires forall j | 0 <= j < |table| :: !Fires(w, table[j].lhs)
    ensures FromPairs(known, [Term(1, w)], table, fuel) == Success(Terms([w], map[w := 1]))
  {
    var t := Load([Term(1, w)]);
    assert [Term(1, w)][..0] == [];
    assert Load([]) == Zero;
    assert t == Put(Zero, w, 1);
    assert t == Terms([w], map[w := 1]);
    assert Reduced(t, table);
    NormalizeFixed(known, t, table, fuel);
  }

  lemma {:induction false} DictTermsMeaning(known: set<Name>, items: seq<(WordArg, int)>)
    ensures DictTerms(known, items).Success? <==> forall i | 0 <= i < |items| :: WordOf(known, items[i].0).Success?
    ensures DictTerms(known, items).Success? ==>
      var ps := DictTerms(known, items).value;
      |ps| == |items| && forall i | 0 <= i < |items| :: ps[i] == Term(items[i].1, WordOf(known, items[i].0).value)
    ensures DictTerms(known, items).Failure? ==>
      exists i | 0 <= i < |items| ::
        && WordOf(known, items[i].0).Failure?
        && DictTerms(known, items).error == WordOf(known, items[i].0).error
        && forall k | 0 <= k < i :: WordOf(known, items[k].0).Success?
  {
    if items != [] {
      var init := items[..|items| - 1];
      DictTermsMeaning(known, init);
      assert forall i | 0 <= i < |init| :: init[i] == items[i];
      if DictTerms(known, init).Failure? {
        var i :| 0 <= i < |init| && WordOf(known, init[i].0).Failure? && DictTerms(known, init).error == WordOf(known, init[i].0).error
          && forall k | 0 <= k < i :: WordOf(known, init[k].0).Success?;
        assert items[i] == init[i];
      }
    }
  }

  /** With rules that never fire (for instance none), the sum and the product are
      exactly the coefficient-wise results, without zeros; the product raises
      exactly when some concatenation holds an unregistered name. */
  lemma NoRulesArithmetic(known: set<Name>, table: seq<Relation>, a: Terms, b: Terms, fuel: nat, w: Word)
    requires Wf(a) && Wf(b) && fuel > 0
    requires forall j | 0 <= j < |table| :: table[j].lhs == []
    ensures Plus(known, table, a, OTerms(b), fuel).Success?
    ensures Get(Plus(known, table, a, OTerms(b), fuel).value, w) == Get(a, w) + Get(b, w)
    ensures Times(known, table, a, OTerms(b), fuel).Success? <==> Concatenable(known, a, b)
    ensures Times(known, table, a, OTerms(b), fuel).Success? ==>
      Get(Times(known, table, a, OTerms(b), fuel).value, w) == PairProductSum(a, b, |a.order|, w)
  {
    SumGet(a, b);
    EmptyLhsNeverFires(known, Load(Entries(Sum(a, b))), table, fuel);
    PruneMeaning(Load(Entries(Sum(a, b))));
    ProductGet(a, b, w);
    EmptyLhsNeverFires(known, Product(a, b), table, fuel);
    PruneMeaning(Product(a, b));
  }

  /** With rules that never fire, `a - b` is the coefficient-wise difference; it
      raises exactly when a stored word of `b` holds an unregistered name, from
      the concatenations of `b * -1`. */
  lemma NoRulesMinus(known: set<Name>, table: seq<Relation>, a: Terms, b: Terms, fuel: nat, w: Word)
    requires Wf(a) && Wf(b) && fuel > 0
    requires forall j | 0 <= j < |table| :: table[j].lhs == []
    ensures Minus(known, table, a, OTerms(b), fuel).Success? <==> StoredKnown(known, b)
    ensures Minus(known, table, a, OTerms(b), fuel).Success? ==>
      Get(Minus(known, table, a, OTerms(b), fuel).value, w) == Get(a, w) - Get(b, w)
  {
    ConstructNumber(known, table, -1, fuel);
    ConcatenableScalar(known, b, -1);
    if StoredKnown(known, b) {
      ProductScalar(b, -1);
      EmptyLhsNeverFires(known, Scaled(b, -1), table, fuel);
      PruneMeaning(Scaled(b, -1));
      var nb := Prune(Scaled(b, -1));
      NoRulesArithmetic(known, table, a, nb, fuel, w);
    }
  }

  /** Concatenating the empty word of the Element `s` checks exactly the stored
      words themselves. */
  lemma ConcatenableScalar(known: set<Name>, a: Terms, s: int)
    ensures Concatenable(known, a, Scalar(s)) <==> StoredKnown(known, a)
  {
    assert forall i | 0 <= i < |a.order| :: a.order[i] + Scalar(s).order[0] == a.order[i];
  }

  /** `b * -1` of the terms of a simplified Element negates every coefficient and
      keeps the stored order; it raises when a stored word holds an unregistered
      name. */
  lemma NegatedByTimes(known: set<Name>, table: seq<Relation>, b: Terms, fuel: nat)
    requires Wf(b) && NoZeros(b) && Reduced(b, table) && fuel > 0
    ensures Times(known, table, b, ONumber(-1), fuel) ==
      if StoredKnown(known, b) then Success(Scaled(b, -1)) else Failure(UnknownVariableName)
    ensures forall w :: Get(Scaled(b, -1), w) == -Get(b, w)
  {
    ConstructNumber(known, table, -1, fuel);
    ConcatenableScalar(known, b, -1);
    ProductScalar(b, -1);
    if StoredKnown(known, b) {
      forall i | 0 <= i < |b.order| ensures Get(Scaled(b, -1), b.order[i]) != 0 {
        assert Get(b, b.order[i]) != 0;
      }
      NormalizeFixed(known, Scaled(b, -1), table, fuel);
    }
  }

  /** The dict `{vw: a[vw] - b[vw]}` over the words of both, in the order `+`
      builds it. */
  function Difference(a: Terms, b: Terms): Terms {
    Terms(Union(a.order, b.order), map w | w in a.coeffs.Keys + b.coeffs.Keys :: Get(a, w) - Get(b, w))
  }

  lemma DifferenceGet(a: Terms, b: Terms)
    requires Wf(a) && Wf(b)
    ensures Wf(Difference(a, b))
    ensures forall w :: Get(Difference(a, b), w) == Get(a, w) - Get(b, w)
  {
    UnionMeaning(a.order, b.order);
  }

  /** `a - b` for the terms `b` of a simplified Element is the Element built from
      the coefficient-wise difference, whatever the rules; it raises
      `UnknownVariableName` when a stored word of `b` holds an unregistered
      name. */
  lemma MinusMeaning(known: set<Name>, table: seq<Relation>, a: Terms, b: Terms, fuel: nat)
    requires Wf(a) && Wf(b) && NoZeros(b) && Reduced(b, table) && fuel > 0
    ensures Minus(known, table, a, OTerms(b), fuel) ==
      if StoredKnown(known, b) then FromPairs(known, Entries(Difference(a, b)), table, fuel)
      else Failure(UnknownVariableName)
  {
    NegatedByTimes(known, table, b, fuel);
    if StoredKnown(known, b) {
      SumNegated(a, b);
    }
  }

  /** Adding the negated terms is subtracting. */
  lemma SumNegated(a: Terms, b: Terms)
    requires Wf(b)
    ensures Sum(a, Scaled(b, -1)) == Difference(a, b)
  {
    var nb := Scaled(b, -1);
    assert nb.coeffs.Keys == b.coeffs.Keys;
    forall w | w in a.coeffs.Keys + b.coeffs.Keys ensures Get(a, w) + Get(nb, w) == Get(a, w) - Get(b, w) {
    }
  }

  /** `==` holds exactly when the coefficients agree on every word. */
  lemma EqualIff(known: set<Name>, table: seq<Relation>, a: Terms, b: Terms, fuel: nat)
    requires Wf(a) && Wf(b)
    ensures Equal(known, table, a, OTerms(b), fuel) == Success(forall w :: Get(a, w) == Get(b, w))
  {
    SameCoefficientsIff(a, b);
  }

  /** Indexing by the Element `1` reads the empty word, as the source's `index == 1`
      test does before it looks at Element indexes. */
  lemma IndexByOne(known: set<Name>, a: Terms, u: Terms)
    requires Wf(u) && forall w :: Get(u, w) == Get(One, w)
    ensures Coefficient(known, a, OTerms(u)) == Coefficient(known, a, ONumber(1))
  {
    MarkedMeaning(u);
    assert IsWord(u, []);
  }
}
