/** What `Element._simplify` computes: repeatedly pick the first stored word, in
    stored order, in which the first rule of the table, in table order, fires;
    rewrite the leftmost occurrence of that rule's left-hand side; drop zero
    coefficients; stop when no rule fires in any stored word.

    The source does not guarantee that this stops, so the number of passes is
    bounded by `fuel`; running out of it is reported, never hidden. */
module Simplifier {
  import opened Wrappers
  import opened Words
  import opened Relations
  import opened Coefficients

  /** No rule of the table fires in any stored word. */
  predicate Reduced(t: Terms, table: seq<Relation>) {
    forall i, j | 0 <= i < |t.order| && 0 <= j < |table| :: !Fires(t.order[i], table[j].lhs)
  }

  /** The first rule at or after position `j` of the table that fires in `w`. */
  function RuleFrom(w: Word, table: seq<Relation>, j: nat): Option<nat>
    decreases |table| - j
  {
    if j >= |table| then None
    else if Fires(w, table[j].lhs) then Some(j)
    else RuleFrom(w, table, j + 1)
  }

  /** The rule found fires, no earlier one from `j` on does, and None means no
      rule from `j` on fires. */
  lemma {:induction false} RuleFromMeaning(w: Word, table: seq<Relation>, j: nat)
    ensures var r := RuleFrom(w, table, j);
      && (r.Some? ==> j <= r.value < |table| && Fires(w, table[r.value].lhs))
      && (r.Some? ==> forall k | j <= k < r.value :: !Fires(w, table[k].lhs))
      && (r.None? ==> forall k | j <= k < |table| :: !Fires(w, table[k].lhs))
    decreases |table| - j
  {
    if j < |table| && !Fires(w, table[j].lhs) {
      RuleFromMeaning(w, table, j + 1);
    }
  }

  /** The first pair (word position, rule position) in the product order of
      `product(terms, relations)`, words outer and rules inner, starting at word
      position `i`, in which the rule fires. */
  function PairFrom(order: seq<Word>, table: seq<Relation>, i: nat): Option<(nat, nat)>
    decreases |order| - i
  {
    if i >= |order| then None
    else match RuleFrom(order[i], table, 0)
      case Some(j) => Some((i, j))
      case None => PairFrom(order, table, i + 1)
  }

  /** The pair found fires, no rule fires in an earlier word from `i` on nor an
      earlier rule in its word, and None means no rule fires in any word from `i`
      on. */
  lemma {:induction false} PairFromMeaning(order: seq<Word>, table: seq<Relation>, i: nat)
    ensures var r := PairFrom(order, table, i);
      && (r.Some? ==>
        && i <= r.value.0 < |order| && r.value.1 < |table|
        && Fires(order[r.value.0], table[r.value.1].lhs)
        && (forall k, m | i <= k < r.value.0 && 0 <= m < |table| :: !Fires(order[k], table[m].lhs))
        && (forall m | 0 <= m < r.value.1 :: !Fires(order[r.value.0], table[m].lhs)))
      && (r.None? ==> forall k, m | i <= k < |order| && 0 <= m < |table| :: !Fires(order[k], table[m].lhs))
    decreases |order| - i
  {
    if i < |order| {
      RuleFromMeaning(order[i], table, 0);
      if RuleFrom(order[i], table, 0).None? {
        PairFromMeaning(order, table, i + 1);
        NoneFiresHere(order, table, i);
      }
    }
  }

  /** When no rule fires in the word at `i`, the pairs from `i` on are those from
      `i + 1` on. */
  lemma NoneFiresHere(order: seq<Word>, table: seq<Relation>, i: nat)
    requires i < |order|
    requires forall m | 0 <= m < |table| :: !Fires(order[i], table[m].lhs)
    ensures PairFrom(order, table, i) == PairFrom(order, table, i + 1)
    ensures forall k, m | i <= k < i + 1 && 0 <= m < |table| :: !Fires(order[k], table[m].lhs)
  {
    RuleFromMeaning(order[i], table, 0);
  }

  /** Dropping stored words keeps terms reduced. */
  lemma ReducedSub(t: Terms, s: Terms, table: seq<Relation>)
    requires Reduced(t, table)
    requires forall w | w in s.order :: w in t.order
    ensures Reduced(s, table)
  {
    forall i, j | 0 <= i < |s.order| && 0 <= j < |table| ensures !Fires(s.order[i], table[j].lhs) {
      assert s.order[i] in t.order;
    }
  }

  /** A chosen rewrite: `term == before + rule.lhs + after`. */
  datatype Redex = Redex(term: Word, before: Word, after: Word, rule: Relation)

  /** The rewrite one pass of the simplifier chooses, or None when it finds none. */
  function FirstRedex(t: Terms, table: seq<Relation>): Option<Redex> {
    PairFromMeaning(t.order, table, 0);
    match PairFrom(t.order, table, 0)
    case None => None
    case Some((i, j)) =>
      var s := SplitOn(t.order[i], table[j].lhs).value;
      Some(Redex(t.order[i], s.before, s.after, table[j]))
  }

  /** The choice rule: a rewrite is found exactly when some rule fires in some
      stored word; it is at the leftmost occurrence of a nonempty left-hand side of
      a rule of the table, in the first word in stored order in which any rule
      fires, and that rule is the first in table order that fires there. */
  lemma FirstRedexMeaning(t: Terms, table: seq<Relation>)
    ensures FirstRedex(t, table).None? <==> Reduced(t, table)
    ensures FirstRedex(t, table).Some? ==>
      var rd := FirstRedex(t, table).value;
      exists i, j | 0 <= i < |t.order| && 0 <= j < |table| ::
        && rd.term == t.order[i] && rd.rule == table[j]
        && (forall k, m | 0 <= k < i && 0 <= m < |table| :: !Fires(t.order[k], table[m].lhs))
        && (forall m | 0 <= m < j :: !Fires(rd.term, table[m].lhs))
        && |rd.rule.lhs| > 0
        && rd.before + rd.rule.lhs + rd.after == rd.term
        && forall k | 0 <= k < |rd.before| :: !OccursAt(rd.term, rd.rule.lhs, k)
  {
    PairFromMeaning(t.order, table, 0);
    match PairFrom(t.order, table, 0)
    case None =>
    case Some((i, j)) =>
      SplitOnMeaning(t.order[i], table[j].lhs);
  }

  // ---------------------------------------------------------------------------
  // One rewrite
  // ---------------------------------------------------------------------------

  /** The `changes` dict of a rewrite whose term has coefficient `c`: the matched
      word `before + lhs + after` loses `c`, then each `before + r + after` gains
      `k * c`, for the pairs `(k, r)` of `rhs` in order. */
  function DeltaOf(rd: Redex, c: int, rhs: seq<Term>): Terms {
    if rhs == [] then AddTo(Zero, rd.before + rd.rule.lhs + rd.after, -c)
    else
      var p := rhs[|rhs| - 1];
      AddTo(DeltaOf(rd, c, rhs[..|rhs| - 1]), rd.before + p.word + rd.after, p.coeff * c)
  }

  function Delta(rd: Redex, c: int): Terms {
    DeltaOf(rd, c, rd.rule.rhs)
  }

  /** What the pairs of `rhs` contribute to the word `u`: the sum of `k * c` over
      the pairs `(k, r)` with `before + r + after == u`. */
  function RhsGain(rd: Redex, c: int, rhs: seq<Term>, u: Word): int {
    if rhs == [] then 0
    else
      var p := rhs[|rhs| - 1];
      RhsGain(rd, c, rhs[..|rhs| - 1], u) + (if rd.before + p.word + rd.after == u then p.coeff * c else 0)
  }

  lemma {:induction false} DeltaGet(rd: Redex, c: int, rhs: seq<Term>, u: Word)
    ensures Wf(DeltaOf(rd, c, rhs))
    ensures Get(DeltaOf(rd, c, rhs), u) ==
      (if u == rd.before + rd.rule.lhs + rd.after then -c else 0) + RhsGain(rd, c, rhs, u)
  {
    if rhs != [] {
      DeltaGet(rd, c, rhs[..|rhs| - 1], u);
    }
  }

  /** One pass that found `rd`: `_add_terms(*changes.iteritems())`, then pruning. */
  function Rewrite(t: Terms, rd: Redex): Terms {
    Prune(AddPairs(t, Entries(Delta(rd, Get(t, rd.term)))))
  }

  /** The one-step delta: for the coefficient `c` of the chosen word, the chosen
      word loses `c`, every `before + r + after` gains `k * c` for each pair
      `(k, r)` of the rule's right-hand side, every other word keeps its
      coefficient, and no zero is left stored. */
  lemma RewriteGet(t: Terms, rd: Redex, u: Word)
    requires Wf(t)
    ensures Wf(Rewrite(t, rd)) && NoZeros(Rewrite(t, rd))
    ensures rd.before + rd.rule.lhs + rd.after == rd.term ==>
      var c := Get(t, rd.term);
      Get(Rewrite(t, rd), u) == Get(t, u) - (if u == rd.term then c else 0) + RhsGain(rd, c, rd.rule.rhs, u)
  {
    var d := Delta(rd, Get(t, rd.term));
    DeltaGet(rd, Get(t, rd.term), rd.rule.rhs, u);
    EntriesGet(d, u);
    AddPairsGet(t, Entries(d), u);
    PruneMeaning(AddPairs(t, Entries(d)));
  }

  /** The validations one pass makes before it changes anything:
      `VariableWord(*before)` and `VariableWord(*after)`, the word
      `before_vw*rel_vw*after_vw` and every `before_vw*varword*after_vw` must hold
      only registered names, or the pass raises `UnknownVariableName`. Every
      intermediate concatenation is a piece of one of these. */
  predicate Checked(known: set<Name>, rd: Redex) {
    && AllKnown(known, rd.before + rd.rule.lhs + rd.after)
    && forall k | 0 <= k < |rd.rule.rhs| :: AllKnown(known, rd.before + rd.rule.rhs[k].word + rd.after)
  }

  /** The words a rewrite stores hold registered names when its validations
      pass. */
  lemma {:induction false} DeltaKnown(known: set<Name>, rd: Redex, c: int, rhs: seq<Term>)
    requires AllKnown(known, rd.before + rd.rule.lhs + rd.after)
    requires forall k | 0 <= k < |rhs| :: AllKnown(known, rd.before + rhs[k].word + rd.after)
    ensures forall w | w in DeltaOf(rd, c, rhs).coeffs :: AllKnown(known, w)
  {
    if rhs != [] {
      var init := rhs[..|rhs| - 1];
      forall k | 0 <= k < |init| ensures AllKnown(known, rd.before + init[k].word + rd.after) {
        assert init[k] == rhs[k];
      }
      DeltaKnown(known, rd, c, init);
    }
  }

  // ---------------------------------------------------------------------------
  // The fixed-point loop
  // ---------------------------------------------------------------------------

  /** The terms `_simplify` leaves, with `known` the registered variable names:
      `FuelExhausted` when `fuel` passes do not reach the point where no rule
      fires, and `UnknownVariableName` when a pass's validations fail. The
      result is free of zeros and reduced. */
  function Normalize(known: set<Name>, t: Terms, table: seq<Relation>, fuel: nat): (r: Result<Terms>)
    requires Wf(t)
    ensures r.Success? ==> Wf(r.value) && NoZeros(r.value) && Reduced(r.value, table)
    ensures r.Failure? ==> r.error == FuelExhausted || r.error == UnknownVariableName
    decreases fuel
  {
    if fuel == 0 then Failure(FuelExhausted)
    else match FirstRedex(t, table)
      case None =>
        PrunedReduced(t, table);
        Success(Prune(t))
      case Some(rd) =>
        if !Checked(known, rd) then Failure(UnknownVariableName)
        else
          RewriteGet(t, rd, []);
          Normalize(known, Rewrite(t, rd), table, fuel - 1)
  }

  /** When no rewrite is found, the pruned terms are well formed, free of zeros
      and reduced. */
  lemma PrunedReduced(t: Terms, table: seq<Relation>)
    requires Wf(t) && FirstRedex(t, table).None?
    ensures Wf(Prune(t)) && NoZeros(Prune(t)) && Reduced(Prune(t), table)
  {
    FirstRedexMeaning(t, table);
    PruneMeaning(t);
    ReducedSub(t, Prune(t), table);
  }

  /** Terms with no zero in which no rule fires are left exactly as they are. */
  lemma NormalizeFixed(known: set<Name>, t: Terms, table: seq<Relation>, fuel: nat)
    requires Wf(t) && NoZeros(t) && Reduced(t, table) && fuel > 0
    ensures Normalize(known, t, table, fuel) == Success(t)
  {
    FirstRedexMeaning(t, table);
    PruneMeaning(t);
  }

  /** Simplifying a simplified result again changes nothing (the second
      `_simplify` of the non-dict constructors). */
  lemma NormalizeIdempotent(known: set<Name>, t: Terms, table: seq<Relation>, fuel: nat, fuel': nat)
    requires Wf(t) && Normalize(known, t, table, fuel).Success? && fuel' > 0
    ensures Normalize(known, Normalize(known, t, table, fuel).value, table, fuel') == Normalize(known, t, table, fuel)
  {
    NormalizeFixed(known, Normalize(known, t, table, fuel).value, table, fuel');
  }

  /** One pass as the loop of `_simplify` makes it: a pass whose validations
      fail raises; after a rewrite the remaining passes start from the
      rewritten terms; after a pass that finds nothing, the pruned terms are the
      result. */
  lemma NormalizePass(known: set<Name>, t: Terms, after: Terms, table: seq<Relation>, fuel: nat, made: Result<bool>)
    requires Wf(t) && fuel > 0
    requires made.Failure? <==> FirstRedex(t, table).Some? && !Checked(known, FirstRedex(t, table).value)
    requires made.Failure? ==> made.error == UnknownVariableName && after == t
    requires made == Success(true) ==> FirstRedex(t, table).Some? && after == Rewrite(t, FirstRedex(t, table).value)
    requires made == Success(false) ==> FirstRedex(t, table).None? && after == Prune(t)
    ensures Wf(after)
    ensures made.Failure? ==> Normalize(known, t, table, fuel) == Failure(made.error)
    ensures made == Success(true) ==> Normalize(known, t, table, fuel) == Normalize(known, after, table, fuel - 1)
    ensures made == Success(false) ==> Normalize(known, t, table, fuel) == Success(after)
  {
    match made
    case Success(true) =>
      RewriteGet(t, FirstRedex(t, table).value, []);
    case Success(false) =>
      PruneMeaning(t);
    case Failure(_) =>
  }

  /** The number of passes left, named either way. */
  lemma PassesLeft(known: set<Name>, t: Terms, table: seq<Relation>, n: nat, m: nat)
    requires Wf(t) && n == m + 1
    ensures Normalize(known, t, table, n - 1) == Normalize(known, t, table, m)
  {
  }

  /** Terms in which no rule fires are only pruned. */
  lemma ReducedNormalize(known: set<Name>, t: Terms, table: seq<Relation>, fuel: nat)
    requires Wf(t) && Reduced(t, table) && fuel > 0
    ensures Normalize(known, t, table, fuel) == Success(Prune(t))
  {
    FirstRedexMeaning(t, table);
  }

  /** Rules whose left-hand sides are all empty never fire (in particular an
      empty table), so simplification only drops the zeros. */
  lemma EmptyLhsNeverFires(known: set<Name>, t: Terms, table: seq<Relation>, fuel: nat)
    requires Wf(t) && fuel > 0
    requires forall j | 0 <= j < |table| :: table[j].lhs == []
    ensures Normalize(known, t, table, fuel) == Success(Prune(t))
  {
    forall i, j | 0 <= i < |t.order| && 0 <= j < |table|
      ensures !Fires(t.order[i], table[j].lhs)
    {
    }
    ReducedNormalize(known, t, table, fuel);
  }

  // ---------------------------------------------------------------------------
  // Registered names
  // ---------------------------------------------------------------------------

  /** Every rule of the table is written over registered names. */
  predicate TableKnown(known: set<Name>, table: seq<Relation>) {
    forall j | 0 <= j < |table| :: RuleKnown(known, table[j])
  }

  predicate RuleKnown(known: set<Name>, rule: Relation) {
    && AllKnown(known, rule.lhs)
    && forall k | 0 <= k < |rule.rhs| :: AllKnown(known, rule.rhs[k].word)
  }

  /** In terms over registered names, a rewrite by a rule over registered names
      passes its validations. */
  lemma RedexChecked(known: set<Name>, t: Terms, table: seq<Relation>)
    requires StoredKnown(known, t) && TableKnown(known, table)
    requires FirstRedex(t, table).Some?
    ensures Checked(known, FirstRedex(t, table).value)
  {
    FirstRedexMeaning(t, table);
    var rd := FirstRedex(t, table).value;
    var i, j :| 0 <= i < |t.order| && 0 <= j < |table| && rd.term == t.order[i] && rd.rule == table[j]
      && rd.before + rd.rule.lhs + rd.after == rd.term;
    assert RuleKnown(known, table[j]);
    AllKnownConcat(known, rd.before + rd.rule.lhs, rd.after);
    AllKnownConcat(known, rd.before, rd.rule.lhs);
    forall k | 0 <= k < |rd.rule.rhs| ensures AllKnown(known, rd.before + rd.rule.rhs[k].word + rd.after) {
      AllKnownConcat(known, rd.before, rd.rule.rhs[k].word);
      AllKnownConcat(known, rd.before + rd.rule.rhs[k].word, rd.after);
    }
  }

  /** A rewrite that passes its validations keeps every stored word over
      registered names. */
  lemma RewriteKnown(known: set<Name>, t: Terms, rd: Redex)
    requires Wf(t) && StoredKnown(known, t) && Checked(known, rd)
    ensures StoredKnown(known, Rewrite(t, rd))
  {
    var d := Delta(rd, Get(t, rd.term));
    DeltaKnown(known, rd, Get(t, rd.term), rd.rule.rhs);
    DeltaGet(rd, Get(t, rd.term), rd.rule.rhs, []);
    var a := AddPairs(t, Entries(d));
    AddPairsGet(t, Entries(d), []);
    PruneMeaning(a);
    forall i | 0 <= i < |Rewrite(t, rd).order| ensures AllKnown(known, Rewrite(t, rd).order[i]) {
      var w := Rewrite(t, rd).order[i];
      assert w in a.order;
      AddPairsGet(t, Entries(d), w);
      EntriesOfSum(d.order, d, w);
      assert w in t.coeffs || w in d.coeffs;
    }
  }

  /** Dropping the zeros keeps every stored word over registered names. */
  lemma KeptKnown(known: set<Name>, t: Terms)
    requires Wf(t) && StoredKnown(known, t)
    ensures StoredKnown(known, Prune(t))
  {
    PruneMeaning(t);
    forall i | 0 <= i < |Prune(t).order| ensures AllKnown(known, Prune(t).order[i]) {
      assert Prune(t).order[i] in t.order;
    }
  }

  /** Simplifying terms over registered names by a table over registered names
      never raises `UnknownVariableName`, and its result is over registered
      names: the only failure left is running out of passes. */
  lemma {:induction false} NormalizeKnown(known: set<Name>, t: Terms, table: seq<Relation>, fuel: nat)
    requires Wf(t) && StoredKnown(known, t) && TableKnown(known, table)
    ensures KnownOutcome(known, Normalize(known, t, table, fuel))
    decreases fuel
  {
    if fuel > 0 {
      if FirstRedex(t, table).None? {
        KnownDone(known, t, table, fuel);
      } else {
        var next := Rewrite(t, FirstRedex(t, table).value);
        KnownStep(known, t, table, fuel);
        NormalizeKnown(known, next, table, fuel - 1);
      }
    }
  }

  /** A pass over registered names that finds nothing to rewrite ends with
      the pruned terms, which are over registered names. */
  lemma KnownDone(known: set<Name>, t: Terms, table: seq<Relation>, fuel: nat)
    requires Wf(t) && StoredKnown(known, t)
    requires fuel > 0 && FirstRedex(t, table).None?
    ensures Normalize(known, t, table, fuel) == Success(Prune(t))
    ensures KnownOutcome(known, Normalize(known, t, table, fuel))
  {
    KeptKnown(known, t);
  }

  /** A pass over registered names goes on with the rewritten terms, which are
      over registered names too. */
  lemma KnownStep(known: set<Name>, t: Terms, table: seq<Relation>, fuel: nat)
    requires Wf(t) && StoredKnown(known, t) && TableKnown(known, table)
    requires fuel > 0 && FirstRedex(t, table).Some?
    ensures Wf(Rewrite(t, FirstRedex(t, table).value))
    ensures StoredKnown(known, Rewrite(t, FirstRedex(t, table).value))
    ensures Normalize(known, t, table, fuel) == Normalize(known, Rewrite(t, FirstRedex(t, table).value), table, fuel - 1)
  {
    var rd := FirstRedex(t, table).value;
    RedexChecked(known, t, table);
    RewriteGet(t, rd, []);
    RewriteKnown(known, t, rd);
  }

  /** A pass whose chosen rewrite would store a word with an unregistered name
      raises `UnknownVariableName`. */
  lemma NormalizeRejects(known: set<Name>, t: Terms, table: seq<Relation>, fuel: nat)
    requires Wf(t) && fuel > 0 && FirstRedex(t, table).Some?
    requires !AllKnown(known, FirstRedex(t, table).value.term)
    ensures Normalize(known, t, table, fuel) == Failure(UnknownVariableName)
  {
    FirstRedexMeaning(t, table);
  }
}
