/** The coefficient map of an Element (`Element.terms`, a defaultdict from words to
    numbers) as a value: the stored words in the dict's iteration order, and their
    coefficients. A word that is not stored reads as 0, which is what the
    defaultdict answers for it. */
module Coefficients {
  import opened Wrappers
  import opened Words
  import opened Relations

  datatype Terms = Terms(order: seq<Word>, coeffs: map<Word, int>)

  /** The order lists every stored word exactly once. */
  ghost predicate Wf(t: Terms) {
    && (forall i, j | 0 <= i < j < |t.order| :: t.order[i] != t.order[j])
    && (forall w :: w in t.coeffs <==> w in t.order)
  }

  const Zero: Terms := Terms([], map[])

  /** Every stored word holds only registered names. */
  predicate StoredKnown(known: set<Name>, t: Terms) {
    forall i | 0 <= i < |t.order| :: AllKnown(known, t.order[i])
  }

  /** A simplification outcome that can only be running out of passes, or terms
      over registered names. */
  predicate KnownOutcome(known: set<Name>, r: Result<Terms>) {
    match r
    case Failure(e) => e == FuelExhausted
    case Success(v) => StoredKnown(known, v)
  }

  /** `terms[w]`, read without inserting. */
  function Get(t: Terms, w: Word): int {
    if w in t.coeffs then t.coeffs[w] else 0
  }

  /** `terms[w] = c`: a new word goes to the end of the order, a stored word keeps
      its place. */
  function Put(t: Terms, w: Word, c: int): (r: Terms)
    ensures Wf(t) ==> Wf(r)
  {
    Terms(if w in t.coeffs then t.order else t.order + [w], t.coeffs[w := c])
  }

  /** Well-formed terms with the same order and the same coefficient at every
      word are the same terms. */
  lemma SameTerms(x: Terms, y: Terms)
    requires Wf(x) && Wf(y) && x.order == y.order
    requires forall w :: Get(x, w) == Get(y, w)
    ensures x == y
  {
    assert x.coeffs.Keys == y.coeffs.Keys;
    forall w | w in x.coeffs ensures x.coeffs[w] == y.coeffs[w] {
      assert Get(x, w) == Get(y, w);
    }
  }

  /** `terms[w] += c`. */
  function AddTo(t: Terms, w: Word, c: int): Terms {
    Put(t, w, Get(t, w) + c)
  }

  /** `terms[w] += c` on the next word of `ws`, not yet stored, extends an order
      that holds the words before it. */
  lemma AppendFresh(prev: Terms, ws: seq<Word>, n: nat, c: int)
    requires 0 < n <= |ws| && prev.order == ws[..n - 1] && ws[n - 1] !in ws[..n - 1]
    requires ws[n - 1] in prev.coeffs <==> ws[n - 1] in prev.order
    ensures AddTo(prev, ws[n - 1], c).order == ws[..n]
  {
    assert ws[..n] == ws[..n - 1] + [ws[n - 1]];
  }

  /** The `n`-th stored word is not among the ones before it. */
  lemma FreshLast(t: Terms, n: nat)
    requires Wf(t) && 0 < n <= |t.order|
    ensures t.order[n - 1] !in t.order[..n - 1]
    ensures t.order[..n] == t.order[..n - 1] + [t.order[n - 1]]
  {
  }

  /** A fresh dict filled by `d[w] = c` for each pair in turn. */
  function Load(ps: seq<Term>): Terms {
    if ps == [] then Zero
    else Put(Load(ps[..|ps| - 1]), ps[|ps| - 1].word, ps[|ps| - 1].coeff)
  }

  lemma LoadSnoc(ps: seq<Term>, p: Term)
    ensures Load(ps + [p]) == Put(Load(ps), p.word, p.coeff)
  {
    assert (ps + [p])[..|ps|] == ps;
  }

  /** `terms[w] += c` for each pair in turn. */
  function AddPairs(t: Terms, ps: seq<Term>): Terms {
    if ps == [] then t
    else AddTo(AddPairs(t, ps[..|ps| - 1]), ps[|ps| - 1].word, ps[|ps| - 1].coeff)
  }

  /** The coefficient of the last pair for `w`, or 0 when there is none. */
  function LastCoeff(ps: seq<Term>, w: Word): int {
    if ps == [] then 0
    else if ps[|ps| - 1].word == w then ps[|ps| - 1].coeff
    else LastCoeff(ps[..|ps| - 1], w)
  }

  /** The total of the coefficients paired with `w`. */
  function PairSum(ps: seq<Term>, w: Word): int {
    if ps == [] then 0
    else PairSum(ps[..|ps| - 1], w) + (if ps[|ps| - 1].word == w then ps[|ps| - 1].coeff else 0)
  }

  predicate Mentions(ps: seq<Term>, w: Word) {
    exists i | 0 <= i < |ps| :: ps[i].word == w
  }

  /** Filling a dict pair by pair: a later pair for the same word overrides an
      earlier one, and exactly the words of the pairs are stored. */
  lemma {:induction false} LoadGet(ps: seq<Term>, w: Word)
    ensures Wf(Load(ps))
    ensures Get(Load(ps), w) == LastCoeff(ps, w)
    ensures w in Load(ps).coeffs <==> Mentions(ps, w)
  {
    if ps != [] {
      var init := ps[..|ps| - 1];
      LoadGet(init, w);
      assert forall i | 0 <= i < |init| :: init[i] == ps[i];
      if Mentions(ps, w) && ps[|ps| - 1].word != w {
        var i :| 0 <= i < |ps| && ps[i].word == w;
        assert init[i].word == w;
      }
    }
  }

  /** Adding pairs one by one adds, for every word, the total paired with it; the
      stored words are the old ones and those of the pairs. */
  lemma {:induction false} AddPairsGet(t: Terms, ps: seq<Term>, w: Word)
    requires Wf(t)
    ensures Wf(AddPairs(t, ps))
    ensures Get(AddPairs(t, ps), w) == Get(t, w) + PairSum(ps, w)
    ensures w in AddPairs(t, ps).coeffs <==> w in t.coeffs || Mentions(ps, w)
  {
    if ps != [] {
      var init := ps[..|ps| - 1];
      AddPairsGet(t, init, w);
      assert forall i | 0 <= i < |init| :: init[i] == ps[i];
      if Mentions(ps, w) && ps[|ps| - 1].word != w {
        var i :| 0 <= i < |ps| && ps[i].word == w;
        assert init[i].word == w;
      }
    }
  }

  /** The pairs `(terms[w], w)` for the words of `order`, in that order
      (`terms.iteritems()` when `order` is the stored order). */
  function EntriesOf(order: seq<Word>, t: Terms): seq<Term> {
    seq(|order|, i requires 0 <= i < |order| => Term(Get(t, order[i]), order[i]))
  }

  function Entries(t: Terms): seq<Term> {
    EntriesOf(t.order, t)
  }

  /** Over distinct words, the pairs of `terms.iteritems()` carry each stored
      coefficient once, so both summing them and storing them give it back. */
  lemma {:induction false} EntriesOfSum(order: seq<Word>, t: Terms, w: Word)
    requires forall i, j | 0 <= i < j < |order| :: order[i] != order[j]
    ensures PairSum(EntriesOf(order, t), w) == if w in order then Get(t, w) else 0
    ensures LastCoeff(EntriesOf(order, t), w) == if w in order then Get(t, w) else 0
    ensures Mentions(EntriesOf(order, t), w) <==> w in order
  {
    if order != [] {
      var init := order[..|order| - 1];
      EntriesOfSum(init, t, w);
      assert EntriesOf(order, t)[..|order| - 1] == EntriesOf(init, t);
      assert w in order <==> w in init || w == order[|order| - 1];
      if w == order[|order| - 1] {
        assert w !in init;
      }
    }
  }

  lemma EntriesGet(t: Terms, w: Word)
    requires Wf(t)
    ensures PairSum(Entries(t), w) == Get(t, w)
    ensures Load(Entries(t)).coeffs == t.coeffs
  {
    forall u ensures PairSum(Entries(t), u) == Get(t, u) && LastCoeff(Entries(t), u) == Get(t, u)
      && (Mentions(Entries(t), u) <==> u in t.coeffs)
    {
      EntriesOfSum(t.order, t, u);
    }
    forall u ensures Get(Load(Entries(t)), u) == Get(t, u) && (u in Load(Entries(t)).coeffs <==> u in t.coeffs) {
      LoadGet(Entries(t), u);
    }
  }

  // ---------------------------------------------------------------------------
  // Dropping zero coefficients
  // ---------------------------------------------------------------------------

  /** The words of `order` whose coefficient is not 0, in the same order. */
  function Nonzero(order: seq<Word>, t: Terms): seq<Word> {
    if order == [] then []
    else Nonzero(order[..|order| - 1], t) + (if Get(t, order[|order| - 1]) != 0 then [order[|order| - 1]] else [])
  }

  /** `{key: val for key, val in terms.iteritems() if val != 0}`. */
  function Prune(t: Terms): Terms {
    Terms(Nonzero(t.order, t), map w | w in t.coeffs && t.coeffs[w] != 0 :: t.coeffs[w])
  }

  predicate NoZeros(t: Terms) {
    forall w | w in t.coeffs :: t.coeffs[w] != 0
  }

  lemma {:induction false} NonzeroMeaning(order: seq<Word>, t: Terms)
    requires forall i, j | 0 <= i < j < |order| :: order[i] != order[j]
    ensures forall w :: w in Nonzero(order, t) <==> w in order && Get(t, w) != 0
    ensures forall i, j | 0 <= i < j < |Nonzero(order, t)| :: Nonzero(order, t)[i] != Nonzero(order, t)[j]
    ensures (forall i | 0 <= i < |order| :: Get(t, order[i]) != 0) ==> Nonzero(order, t) == order
  {
    if order != [] {
      var init := order[..|order| - 1];
      var x := order[|order| - 1];
      NonzeroMeaning(init, t);
      assert order == init + [x];
      assert x !in init;
    }
  }

  /** Pruning keeps every coefficient, leaves no zero behind, stores only words
      that were stored, and changes nothing when there was no zero. */
  lemma PruneMeaning(t: Terms)
    requires Wf(t)
    ensures Wf(Prune(t)) && NoZeros(Prune(t))
    ensures forall w :: Get(Prune(t), w) == Get(t, w)
    ensures forall w | w in Prune(t).order :: w in t.order
    ensures NoZeros(t) ==> Prune(t) == t
  {
    NonzeroMeaning(t.order, t);
    PruneKeys(t);
    PruneGet(t);
    if NoZeros(t) {
      forall i | 0 <= i < |t.order| ensures Get(t, t.order[i]) != 0 {
        assert t.order[i] in t.coeffs;
      }
      NonzeroPartIdle(t.coeffs);
    }
  }

  lemma PruneKeys(t: Terms)
    requires Wf(t)
    requires forall w :: w in Nonzero(t.order, t) <==> w in t.order && Get(t, w) != 0
    ensures forall w :: w in Prune(t).coeffs <==> w in Prune(t).order
  {
    forall w ensures w in Prune(t).coeffs <==> w in Prune(t).order {
      assert w in Prune(t).coeffs <==> w in t.coeffs && t.coeffs[w] != 0;
    }
  }

  lemma PruneGet(t: Terms)
    ensures NoZeros(Prune(t))
    ensures forall w :: Get(Prune(t), w) == Get(t, w)
  {
    var m := map w | w in t.coeffs && t.coeffs[w] != 0 :: t.coeffs[w];
    assert Prune(t).coeffs == m;
    forall w ensures Get(Prune(t), w) == Get(t, w) {
      if w in m {
        assert m[w] == t.coeffs[w];
      }
    }
  }

  /** A map without zero values is its own nonzero part. */
  lemma NonzeroPartIdle(c: map<Word, int>)
    requires forall w | w in c :: c[w] != 0
    ensures (map w | w in c && c[w] != 0 :: c[w]) == c
  {
    var m := map w | w in c && c[w] != 0 :: c[w];
    assert m.Keys == c.Keys;
  }
}
