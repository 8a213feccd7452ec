/** `Element` (element.py): a polynomial whose coefficient map `terms` the
    methods update in place. Each method is proved against the function of
    `Arithmetic` or `Simplifier` that says what it computes.

    The registry and the relation table are passed in: `known` stands for the
    names registered in `config.variables`, `rules` for `config.relations` in
    iteration order. */
module Elements {
  import opened Wrappers
  import opened Words
  import opened Variables
  import opened Relations
  import opened Coefficients
  import opened Simplifier
  import opened Arithmetic
  import Tools

  /** A Python value handed to an Element method. */
  datatype Value =
    | VElement(e: Element)
    | VDict(items: seq<(WordArg, int)>)
    | VWord(w: Word)
    | VVariable(v: Variable)
    | VStr(s: string)
    | VNumber(n: int)
    | VOther
  {
    function Objects(): set<object> {
      match this
      case VElement(e) => {e}
      case VVariable(v) => {v}
      case _ => {}
    }

    /** What an operation sees of the value. */
    function Snap(): Operand
      reads Objects()
    {
      match this
      case VElement(e) => OTerms(e.terms)
      case VDict(items) => ODict(items)
      case VWord(w) => OWord(w)
      case VVariable(v) => OVariable(v.name)
      case VStr(s) => OStr(s)
      case VNumber(n) => ONumber(n)
      case VOther => OOther
    }
  }

  /** The `changes` dict of one pass of `_simplify` for the rewrite `rd` of a term
      with coefficient `c`. `VariableWord(*before)`, `VariableWord(*after)` and
      every concatenation re-validate their names, so the pass raises
      `UnknownVariableName` exactly when one of them holds an unregistered name. */
  method BuildChanges(known: set<Name>, rd: Redex, c: int) returns (r: Result<Terms>)
    ensures r.Success? <==> Checked(known, rd)
    ensures r.Success? ==> r.value == Delta(rd, c)
    ensures r.Failure? ==> r.error == UnknownVariableName
  {
    var before := Revalidate(known, rd.before);
    var after := Revalidate(known, rd.after);
    var left := Words.Mul(known, rd.before, FWord(rd.rule.lhs));
    AllKnownConcat(known, rd.before + rd.rule.lhs, rd.after);
    AllKnownConcat(known, rd.before, rd.rule.lhs);
    if before.Failure? || after.Failure? || left.Failure? {
      return Failure(UnknownVariableName);
    }
    var key := Words.Mul(known, left.value, FWord(rd.after));
    if key.Failure? {
      return Failure(UnknownVariableName);
    }
    r := RhsChanges(known, rd, c, AddTo(Zero, key.value, -c));
  }

  /** The loop of `BuildChanges` over the rule's right-hand side: each
      `before_vw*varword*after_vw` re-validates its names, and the pass raises
      `UnknownVariableName` at the first one holding an unregistered name. */
  method RhsChanges(known: set<Name>, rd: Redex, c: int, start: Terms) returns (r: Result<Terms>)
    requires AllKnown(known, rd.after) && start == DeltaOf(rd, c, [])
    ensures r.Success? <==> forall m | 0 <= m < |rd.rule.rhs| :: AllKnown(known, rd.before + rd.rule.rhs[m].word + rd.after)
    ensures r.Success? ==> r.value == Delta(rd, c)
    ensures r.Failure? ==> r.error == UnknownVariableName
  {
    var changes := start;
    var rhs := rd.rule.rhs;
    for k := 0 to |rhs|
      invariant changes == DeltaOf(rd, c, rhs[..k])
      invariant forall m | 0 <= m < k :: AllKnown(known, rd.before + rhs[m].word + rd.after)
    {
      assert rhs[..k + 1][..k] == rhs[..k];
      var part := Words.Mul(known, rd.before, FWord(rhs[k].word));
      AllKnownConcat(known, rd.before + rhs[k].word, rd.after);
      if part.Failure? {
        return Failure(UnknownVariableName);
      }
      var word := Words.Mul(known, part.value, FWord(rd.after));
      if word.Failure? {
        return Failure(UnknownVariableName);
      }
      changes := AddTo(changes, word.value, rhs[k].coeff * c);
    }
    assert rhs[..|rhs|] == rhs;
    return Success(changes);
  }

  /** The pairs of a dict of words as `_add_terms` arguments. */
  function WordArgs(ps: seq<Term>): (r: seq<RhsArg>)
    ensures |r| == |ps|
  {
    seq(|ps|, i requires 0 <= i < |ps| => RhsArg(Num(ps[i].coeff), AWord(ps[i].word)))
  }

  /** Pairs of numbers and words are all accepted, whatever is registered. */
  lemma WordArgsAccepted(known: set<Name>, ps: seq<Term>)
    ensures TermsOf(known, WordArgs(ps)) == Success(ps)
  {
    var args := WordArgs(ps);
    forall i | 0 <= i < |args| ensures TermOf(known, args[i]) == Success(ps[i]) {
    }
    TermsOfMeaning(known, args);
    assert TermsOf(known, args).value == ps;
  }

  class Element {
    /** `self.terms`. */
    var terms: Terms

    ghost predicate Valid()
      reads this
    {
      Wf(terms)
    }

    /** `Element()`: no terms (simplifying them changes nothing). */
    constructor Empty()
      ensures Valid() && terms == Zero
    {
      terms := Zero;
    }

    /** `_add_terms(*args)`: add each `(varword, coeff)` pair in turn. An argument
        that does not unpack into two raises as in `Relation`; a coefficient
        that is not a Number, or a word argument that is neither a VariableWord nor
        a registered Variable, raises; the pairs before it have been added. */
    method AddTerms(known: set<Name>, args: seq<RhsArg>) returns (r: Result<()>)
      requires Valid()
      modifies this
      ensures Valid()
      ensures r.Success? <==> TermsOf(known, args).Success?
      ensures r.Success? ==> terms == AddPairs(old(terms), TermsOf(known, args).value)
      ensures r.Failure? ==>
        exists k | 0 <= k < |args| ::
          && TermsOf(known, args[..k]).Success?
          && TermOf(known, args[k]).Failure?
          && r.error == TermOf(known, args[k]).error
          && terms == AddPairs(old(terms), TermsOf(known, args[..k]).value)
    {
      ghost var t0 := terms;
      ghost var ps: seq<Term> := [];
      for i := 0 to |args|
        invariant TermsOf(known, args[..i]) == Success(ps)
        invariant terms == AddPairs(t0, ps)
        invariant Wf(terms)
      {
        TermsOfSnoc(known, args, i);
        if args[i].NotIterable? || args[i].WrongLength? {
          TermsOfPrefix(known, args, i + 1);
          return Failure(if args[i].NotIterable? then TypeError else ValueError);
        }
        var coeff, varword := args[i].coeff, args[i].word;
        if coeff.NotNumber? {
          TermsOfPrefix(known, args, i + 1);
          return Failure(TypeError);
        }
        var vw := KeyWord(known, varword);
        if vw.Failure? {
          TermsOfPrefix(known, args, i + 1);
          return Failure(vw.error);
        }
        var w := vw.value;
        assert TermOf(known, args[i]) == Success(Term(coeff.n, w));
        assert (ps + [Term(coeff.n, w)])[..|ps|] == ps;
        terms := AddTo(terms, w, coeff.n);
        ps := ps + [Term(coeff.n, w)];
      }
      assert args[..|args|] == args;
      return Success(());
    }

    /** The search of `_simplify`: stored words outer, rules inner, the first pair in
        which the rule's left-hand side is found with a nonempty match. */
    method FindRedex(rules: seq<Relation>) returns (rd: Option<Redex>)
      ensures rd == FirstRedex(terms, rules)
    {
      var order := terms.order;
      var i := 0;
      while i < |order|
        invariant 0 <= i <= |order|
        invariant PairFrom(order, rules, i) == PairFrom(order, rules, 0)
      {
        var j := 0;
        while j < |rules|
          invariant 0 <= j <= |rules|
          invariant RuleFrom(order[i], rules, j) == RuleFrom(order[i], rules, 0)
        {
          var s := SplitOnSub(order[i], rules[j].lhs);
          if s.Some? && |s.value.during| > 0 {
            return Some(Redex(order[i], s.value.before, s.value.after, rules[j]));
          }
          j := j + 1;
        }
        i := i + 1;
      }
      return None;
    }

    /** One pass of `_simplify`: find the rewrite, validate and build its changes,
        add them with `_add_terms`, then drop the zeros. A failed validation
        raises before anything changes. */
    method Pass(known: set<Name>, rules: seq<Relation>) returns (r: Result<bool>)
      requires Valid()
      modifies this
      ensures Valid()
      ensures r.Failure? <==> FirstRedex(old(terms), rules).Some? && !Checked(known, FirstRedex(old(terms), rules).value)
      ensures r.Failure? ==> r.error == UnknownVariableName && terms == old(terms)
      ensures r == Success(true) ==>
        FirstRedex(old(terms), rules).Some? && terms == Rewrite(old(terms), FirstRedex(old(terms), rules).value)
      ensures r == Success(false) ==> FirstRedex(old(terms), rules).None? && terms == Prune(old(terms))
    {
      var rd := FindRedex(rules);
      if rd.Some? {
        var changes := BuildChanges(known, rd.value, Get(terms, rd.value.term));
        if changes.Failure? {
          return Failure(changes.error);
        }
        WordArgsAccepted(known, Entries(changes.value));
        var _ := AddTerms(known, WordArgs(Entries(changes.value)));
      }
      PruneMeaning(terms);
      terms := Prune(terms);
      return Success(rd.Some?);
    }

    /** One pass seen through `Normalize`: when `n` passes reach `goal`, a pass
        that raises raises what `goal` reports, a pass that rewrites leaves
        `m == n - 1` passes to reach it, and a pass that finds nothing to rewrite
        leaves `goal` itself. */
    method PassWithin(known: set<Name>, rules: seq<Relation>, ghost goal: Result<Terms>, ghost n: nat, ghost m: nat)
      returns (r: Result<bool>)
      requires Valid() && n == m + 1 && goal == Normalize(known, terms, rules, n)
      modifies this
      ensures Valid()
      ensures r.Failure? ==> goal == Failure(r.error)
      ensures r == Success(true) ==> goal == Normalize(known, terms, rules, m)
      ensures r == Success(false) ==> goal == Success(terms)
    {
      ghost var before := terms;
      r := Pass(known, rules);
      NormalizePass(known, before, terms, rules, n, r);
      PassesLeft(known, terms, rules, n, m);
    }

    /** `_simplify`: apply one rewrite per pass and drop the zeros, until a pass finds
        nothing to rewrite. At most `fuel` passes are made; a failure reports
        either that they do not suffice or the exception a pass raised. */
    method Simplify(known: set<Name>, rules: seq<Relation>, fuel: nat) returns (r: Result<()>)
      requires Valid()
      modifies this
      ensures Valid()
      ensures r.Success? ==> Normalize(known, old(terms), rules, fuel) == Success(terms)
      ensures r.Failure? ==> Normalize(known, old(terms), rules, fuel) == Failure(r.error)
    {
      ghost var goal := Normalize(known, terms, rules, fuel);
      var left := fuel;
      var made: Result<bool> := Success(true);
      while made == Success(true) && left > 0
        invariant Wf(terms)
        invariant made.Failure? ==> goal == Failure(made.error)
        invariant made == Success(true) ==> goal == Normalize(known, terms, rules, left)
        invariant made == Success(false) ==> goal == Success(terms)
        decreases left
      {
        var next := left - 1;
        made := PassWithin(known, rules, goal, left, next);
        left := next;
      }
      match made
      case Failure(e) => return Failure(e);
      case Success(true) => return Failure(FuelExhausted);
      case Success(false) => return Success(());
    }

    /** `__getitem__`. An Element index is read by its loop over the index's items;
        the `index == 1` test that comes before it is not made for an Element index
        (`IndexByOne` shows it gives the same coefficient). */
    method GetItem(known: set<Name>, index: Value) returns (r: Result<Option<int>>)
      ensures r == Coefficient(known, terms, index.Snap())
    {
      match index {
        case VWord(w) => return Success(Some(Get(terms, w)));
        case VVariable(v) =>
          var vw := NewWord(known, [PVar(v.name)]);
          if vw.Failure? {
            assert !PieceOk(known, [PVar(v.name)][0]);
            return Failure(UnknownVariableName);
          }
          assert PieceOk(known, [PVar(v.name)][0]);
          assert vw.value == [v.name];
          return Success(Some(Get(terms, vw.value)));
        case VNumber(n) =>
          if n == 1 {
            return Success(Some(Get(terms, [])));
          }
          return Success(None);
        case VElement(e) =>
          var u := e.terms;
          var vw: Option<Word> := None;
          for i := 0 to |u.order|
            invariant MarkedIn(u, i) == Success(vw)
          {
            var key := u.order[i];
            var val := Get(u, key);
            if val != 0 && val != 1 {
              MarkedInFailure(u, i + 1, |u.order|);
              return Failure(TypeError);
            } else if val == 1 {
              if vw.Some? {
                MarkedInFailure(u, i + 1, |u.order|);
                return Failure(TypeError);
              }
              vw := Some(key);
            }
          }
          if vw.None? {
            return Success(None);
          }
          return Success(Some(Get(terms, vw.value)));
        case _ => return Success(None);
      }
    }

    /** `transform(old, new, scalar, swap, revscalar)`: the renamed terms replace
        the old ones, then simplification. `revscalar` defaults to `scalar`.
        Copying a key re-validates its names, so a stored word with an
        unregistered name raises before `terms` is replaced. */
    method Transform(known: set<Name>, from: Name, to: Name, scalar: int, swap: bool, revscalar: Option<int>,
                     rules: seq<Relation>, fuel: nat) returns (r: Result<()>)
      requires Valid()
      modifies this
      ensures Valid()
      ensures !StoredKnown(known, old(terms)) ==> r == Failure(UnknownVariableName) && terms == old(terms)
      ensures var rev := if revscalar.Some? then revscalar.value else scalar;
        StoredKnown(known, old(terms)) ==>
          && (r.Success? ==> Normalize(known, Renamed(old(terms), from, to, scalar, swap, rev), rules, fuel) == Success(terms))
          && (r.Failure? ==> Normalize(known, Renamed(old(terms), from, to, scalar, swap, rev), rules, fuel) == Failure(r.error))
    {
      var rev := if revscalar.Some? then revscalar.value else scalar;
      var renamed := RenameAll(known, terms, from, to, scalar, swap, rev);
      if renamed.Failure? {
        return Failure(renamed.error);
      }
      terms := renamed.value;
      r := Simplify(known, rules, fuel);
    }

    /** The inner loop of `__mul__` for one word `w1` of the left operand with
        coefficient `c1`: `ret.terms[w1 * w2] += c1 * b[w2]` for each stored `w2`.
        The concatenation `w1 * w2` re-validates its names: at the first one
        that holds an unregistered name the row stops, `ok` is false, and the
        entries made before it stay. */
    method AddRow(known: set<Name>, w1: Word, c1: int, b: Terms) returns (ok: bool)
      modifies this
      ensures ok <==> forall j | 0 <= j < |b.order| :: AllKnown(known, w1 + b.order[j])
      ensures ok ==> terms == MulRow(old(terms), w1, c1, b, |b.order|)
      ensures !ok ==> exists j | 0 <= j < |b.order| ::
        && !AllKnown(known, w1 + b.order[j])
        && (forall k | 0 <= k < j :: AllKnown(known, w1 + b.order[k]))
        && terms == MulRow(old(terms), w1, c1, b, j)
    {
      ghost var t0 := terms;
      for j := 0 to |b.order|
        invariant terms == MulRow(t0, w1, c1, b, j)
        invariant forall k | 0 <= k < j :: AllKnown(known, w1 + b.order[k])
      {
        var w2 := b.order[j];
        var key := Words.Mul(known, w1, FWord(w2));
        if key.Failure? {
          return false;
        }
        terms := AddTo(terms, key.value, c1 * Get(b, w2));
      }
      return true;
    }
  }

  /** `newkey = key.copy()` renamed in place by `newkey.transform(from, to, swap)`,
      with the counts it returns. */
  method RenamedCopy(key: Word, from: Name, to: Name, swap: bool) returns (newkey: Word, ex1: nat, ex2: nat)
    ensures newkey == RenameWord(key, from, to, swap)
    ensures ex1 == multiset(key)[from]
    ensures ex2 == if swap && from != to then multiset(key)[to] else 0
  {
    var a := new Name[|key|](k requires 0 <= k < |key| => key[k]);
    assert a[..] == key;
    ex1, ex2 := TransformInPlace(a, from, to, swap);
    newkey := a[..];
  }

  /** One step of the loop of `transform`: the renamed copy of the key, and the
      coefficient scaled by `scalar` to the number of `from` replaced and, with
      swap, by `rev` to the number of `to` replaced. */
  method RenameKey(t: Terms, key: Word, from: Name, to: Name, scalar: int, swap: bool, rev: int) returns (newkey: Word, value: int)
    ensures newkey == RenameWord(key, from, to, swap)
    ensures value == Get(t, key) * Scale(key, from, to, scalar, swap, rev)
  {
    var ex1, ex2;
    newkey, ex1, ex2 := RenamedCopy(key, from, to, swap);
    var c := Get(t, key);
    if swap {
      value := c * Tools.Pow(scalar, ex1) * Tools.Pow(rev, ex2);
      assert value == c * (Tools.Pow(scalar, ex1) * Tools.Pow(rev, ex2));
    } else {
      value := c * Tools.Pow(scalar, ex1);
    }
  }

  /** One step of the loop of `transform`: the copy of the key at position `i`,
      which raises when the key holds an unregistered name, then
      `newterms[newkey] = value` for its renamed form. */
  method RenameStep(known: set<Name>, t: Terms, i: nat, newterms: Terms, from: Name, to: Name, scalar: int, swap: bool, rev: int)
    returns (r: Result<Terms>)
    requires i < |t.order|
    requires newterms == RenamedUpTo(t, i, from, to, scalar, swap, rev)
    ensures r.Success? <==> AllKnown(known, t.order[i])
    ensures r.Success? ==> r.value == RenamedUpTo(t, i + 1, from, to, scalar, swap, rev)
    ensures r.Failure? ==> r.error == UnknownVariableName
  {
    var copy := Revalidate(known, t.order[i]);
    if copy.Failure? {
      return Failure(UnknownVariableName);
    }
    var key := copy.value;
    var newkey, value := RenameKey(t, key, from, to, scalar, swap, rev);
    RenamedPairsSnoc(t, t.order, i, from, to, scalar, swap, rev);
    LoadSnoc(RenamedPairs(t, t.order[..i], from, to, scalar, swap, rev), Term(value, newkey));
    return Success(Put(newterms, newkey, value));
  }

  /** The new dict after the first `n` keys. */
  function RenamedUpTo(t: Terms, n: nat, from: Name, to: Name, scalar: int, swap: bool, rev: int): Terms
    requires n <= |t.order|
  {
    Load(RenamedPairs(t, t.order[..n], from, to, scalar, swap, rev))
  }

  /** The first `n` words hold only registered names. */
  ghost predicate KnownUpTo(known: set<Name>, ws: seq<Word>, n: nat)
    requires n <= |ws|
  {
    forall k | 0 <= k < n :: AllKnown(known, ws[k])
  }

  /** The loop of `transform`: every stored word is copied and renamed in place,
      and its coefficient, scaled by the counts the renaming returns, is assigned
      to the new word in a fresh dict. The copy, `VariableWord(*key._w)`,
      re-validates the names and raises at the first key that holds an
      unregistered one. */
  method RenameAll(known: set<Name>, t: Terms, from: Name, to: Name, scalar: int, swap: bool, rev: int)
    returns (r: Result<Terms>)
    ensures r.Success? <==> StoredKnown(known, t)
    ensures r.Success? ==> r.value == Renamed(t, from, to, scalar, swap, rev)
    ensures r.Failure? ==> r.error == UnknownVariableName
  {
    var newterms := Zero;
    assert newterms == RenamedUpTo(t, 0, from, to, scalar, swap, rev);
    for i := 0 to |t.order|
      invariant newterms == RenamedUpTo(t, i, from, to, scalar, swap, rev)
      invariant KnownUpTo(known, t.order, i)
    {
      var step := RenameStep(known, t, i, newterms, from, to, scalar, swap, rev);
      if step.Failure? {
        assert !StoredKnown(known, t);
        return Failure(UnknownVariableName);
      }
      assert KnownUpTo(known, t.order, i + 1);
      newterms := step.value;
    }
    assert t.order[..|t.order|] == t.order;
    assert StoredKnown(known, t);
    return Success(newterms);
  }

  /** `VariableWord(key)` for a key of `_add_terms` or of a dict: a VariableWord
      is kept, a registered Variable becomes its one-letter word, and anything
      else raises. */
  method KeyWord(known: set<Name>, key: WordArg) returns (r: Result<Word>)
    ensures r == WordOf(known, key)
  {
    match key {
      case AWord(w) => return Success(w);
      case AVar(n) =>
        r := NewWord(known, [PVar(n)]);
        if r.Success? {
          assert PieceOk(known, [PVar(n)][0]);
          assert r.value == [n];
        } else {
          assert !PieceOk(known, [PVar(n)][0]);
        }
      case AOther => return Failure(TypeError);
    }
  }

  /** The copy loop of `__init__` for a dict argument, into a new Element: a
      VariableWord key is stored as it is, a Variable key as its one-letter word,
      any other key raises. */
  method FromItems(known: set<Name>, items: seq<(WordArg, int)>) returns (r: Result<Element>)
    ensures r.Success? ==>
      && fresh(r.value) && r.value.Valid()
      && DictTerms(known, items).Success?
      && r.value.terms == Load(DictTerms(known, items).value)
    ensures r.Failure? ==> DictTerms(known, items) == Failure(r.error)
  {
    var e := new Element.Empty();
    ghost var ps: seq<Term> := [];
    for i := 0 to |items|
      invariant DictTerms(known, items[..i]) == Success(ps)
      invariant e.terms == Load(ps) && Wf(e.terms)
    {
      assert items[..i + 1][..i] == items[..i];
      var key, value := items[i].0, items[i].1;
      var kw := KeyWord(known, key);
      if kw.Failure? {
        DictTermsPrefix(known, items, i + 1);
        return Failure(kw.error);
      }
      var w := kw.value;
      assert WordOf(known, key) == Success(w);
      assert (ps + [Term(value, w)])[..|ps|] == ps;
      e.terms := Put(e.terms, w, value);
      ps := ps + [Term(value, w)];
    }
    assert items[..|items|] == items;
    return Success(e);
  }

  /** The one-item dict the inner `__init__` call receives for an argument that
      is not a dict, or the exception raised before it. */
  method ItemsOf(known: set<Name>, x: Operand) returns (r: Result<seq<(WordArg, int)>>)
    ensures r.Failure? ==> Initial(known, x) == Failure(r.error)
    ensures r.Success? ==> Initial(known, x) == DictTerms(known, r.value)
  {
    match x {
      case ODict(items) => return Success(items);
      case OWord(w) =>
        DictTermsSingle(known, w, 1);
        return Success([(AWord(w), 1)]);
      case OVariable(n) =>
        var vw := NewWord(known, [PVar(n)]);
        if vw.Failure? {
          assert !PieceOk(known, [PVar(n)][0]);
          return Failure(UnknownVariableName);
        }
        assert PieceOk(known, [PVar(n)][0]);
        assert vw.value == [n];
        DictTermsSingle(known, vw.value, 1);
        return Success([(AWord(vw.value), 1)]);
      case OStr(s) =>
        var vw := NewWord(known, [PStr(s)]);
        if vw.Failure? {
          assert !PieceOk(known, [PStr(s)][0]);
          return Failure(UnknownVariableName);
        }
        assert PieceOk(known, [PStr(s)][0]);
        assert vw.value == [s];
        DictTermsSingle(known, vw.value, 1);
        return Success([(AWord(vw.value), 1)]);
      case ONumber(n) =>
        DictTermsSingle(known, [], n);
        return Success([(AWord([]), n)]);
      case OTerms(_) => return Failure(TypeError);
      case OOther => return Failure(TypeError);
    }
  }

  /** `Element(dict)`: copy the items, then simplify. */
  method FromDict(known: set<Name>, rules: seq<Relation>, items: seq<(WordArg, int)>, fuel: nat) returns (r: Result<Element>)
    ensures r.Success? ==>
      && fresh(r.value) && r.value.Valid() && DictTerms(known, items).Success?
      && FromPairs(known, DictTerms(known, items).value, rules, fuel) == Success(r.value.terms)
    ensures r.Failure? ==>
      || DictTerms(known, items) == Failure(r.error)
      || (DictTerms(known, items).Success? && FromPairs(known, DictTerms(known, items).value, rules, fuel) == Failure(r.error))
  {
    var f := FromItems(known, items);
    if f.Failure? {
      return Failure(f.error);
    }
    var e := f.value;
    var s := e.Simplify(known, rules, fuel);
    if s.Failure? {
      return Failure(s.error);
    }
    return Success(e);
  }

  /** `Element(x)`. A VariableWord, a Variable, a str or a Number is first turned
      into a one-item dict, which the inner `__init__` copies and simplifies; the
      outer one simplifies once more, which changes nothing. */
  method NewElement(known: set<Name>, rules: seq<Relation>, x: Operand, fuel: nat) returns (r: Result<Element>)
    ensures r.Success? ==> fresh(r.value) && r.value.Valid() && Construct(known, rules, x, fuel) == Success(r.value.terms)
    ensures r.Failure? ==> Construct(known, rules, x, fuel) == Failure(r.error)
  {
    var items := ItemsOf(known, x);
    if items.Failure? {
      return Failure(items.error);
    }
    assert Construct(known, rules, x, fuel) ==
      match DictTerms(known, items.value)
      case Failure(e) => Failure(e)
      case Success(ps) => FromPairs(known, ps, rules, fuel);
    r := FromDict(known, rules, items.value, fuel);
    if r.Success? && !x.ODict? {
      var e := r.value;
      LoadGet(DictTerms(known, items.value).value, []);
      NormalizeIdempotent(known, Load(DictTerms(known, items.value).value), rules, fuel, fuel);
      var again := e.Simplify(known, rules, fuel);
      assert again.Success?;
    }
  }

  /** The other operand of `+`, `*` and `==` as an Element: itself, or `Element(x)`
      for a VariableWord, a Variable or a Number; None for anything else. */
  method Operand2(known: set<Name>, rules: seq<Relation>, other: Value, fuel: nat) returns (r: Option<Result<Element>>)
    requires other.VElement? ==> other.e.Valid()
    ensures r.None? <==> !Convertible(other.Snap()) && !other.VElement?
    ensures other.VElement? ==> r == Some(Success(other.e))
    ensures r.Some? && r.value.Success? ==> r.value.value.Valid()
    ensures r.Some? && !other.VElement? ==>
      && (r.value.Success? ==> fresh(r.value.value) && Construct(known, rules, other.Snap(), fuel) == Success(r.value.value.terms))
      && (r.value.Failure? ==> Construct(known, rules, other.Snap(), fuel) == Failure(r.value.error))
  {
    if other.VElement? {
      return Some(Success(other.e));
    } else if Convertible(other.Snap()) {
      var c := NewElement(known, rules, other.Snap(), fuel);
      return Some(c);
    }
    return None;
  }

  /** `Element({vw: a[vw] + b[vw] for vw in ...})`: the comprehension, then the
      constructor's copy and simplification. */
  method SumElement(known: set<Name>, rules: seq<Relation>, a: Terms, b: Terms, fuel: nat) returns (r: Result<Element>)
    ensures r.Success? ==> fresh(r.value) && r.value.Valid() && FromPairs(known, Entries(Sum(a, b)), rules, fuel) == Success(r.value.terms)
    ensures r.Failure? ==> FromPairs(known, Entries(Sum(a, b)), rules, fuel) == Failure(r.error)
  {
    var s := Sum(a, b);
    DictTermsWords(known, Entries(s));
    r := FromDict(known, rules, WordItems(Entries(s)), fuel);
  }

  /** `a + other`: the coefficient-wise sum over the union of the stored words, as a
      new Element. */
  method Add(a: Element, known: set<Name>, rules: seq<Relation>, other: Value, fuel: nat) returns (r: Result<Element>)
    requires a.Valid() && (other.VElement? ==> other.e.Valid())
    ensures r.Success? ==> fresh(r.value) && r.value.Valid() && Plus(known, rules, a.terms, other.Snap(), fuel) == Success(r.value.terms)
    ensures r.Failure? ==> Plus(known, rules, a.terms, other.Snap(), fuel) == Failure(r.error)
  {
    var o := Operand2(known, rules, other, fuel);
    if o.None? {
      return Failure(ReturnedTypeError);
    }
    if o.value.Failure? {
      return Failure(o.value.error);
    }
    var b := o.value.value;
    assert Plus(known, rules, a.terms, other.Snap(), fuel) == FromPairs(known, Entries(Sum(a.terms, b.terms)), rules, fuel);
    r := SumElement(known, rules, a.terms, b.terms, fuel);
  }

  /** The loops of `__mul__`: `ret.terms[w1 * w2] += a[w1] * b[w2]` over the pairs
      of stored words, the words of `a` outer, into a new Element. A
      concatenation with an unregistered name raises and the new Element is
      dropped. */
  method FillProduct(known: set<Name>, at: Terms, bt: Terms) returns (r: Result<Element>)
    ensures r.Success? <==> Concatenable(known, at, bt)
    ensures r.Success? ==> fresh(r.value) && r.value.Valid() && r.value.terms == Product(at, bt)
    ensures r.Failure? ==> r.error == UnknownVariableName
  {
    var ret := new Element.Empty();
    for i := 0 to |at.order|
      invariant fresh(ret)
      invariant ret.terms == MulRows(at, bt, i)
      invariant ConcatenableUpTo(known, at, bt, i)
    {
      var w1 := at.order[i];
      ghost var before := ret.terms;
      var ok := ret.AddRow(known, w1, Get(at, w1), bt);
      if !ok {
        ConcatenableRows(known, at, bt, i);
        return Failure(UnknownVariableName);
      }
      MulRowsNext(at, bt, i, before, ret.terms);
    }
    ConcatenableRows(known, at, bt, |at.order|);
    ProductGet(at, bt, []);
    r := Success(ret);
  }

  /** `__mul__` between Elements: the loops, then simplification. */
  method ProductElement(known: set<Name>, rules: seq<Relation>, at: Terms, bt: Terms, fuel: nat) returns (r: Result<Element>)
    ensures r.Success? ==> fresh(r.value) && r.value.Valid() && Multiply(known, rules, at, bt, fuel) == Success(r.value.terms)
    ensures r.Failure? ==> Multiply(known, rules, at, bt, fuel) == Failure(r.error)
  {
    var filled := FillProduct(known, at, bt);
    if filled.Failure? {
      return Failure(filled.error);
    }
    var ret := filled.value;
    var s := ret.Simplify(known, rules, fuel);
    if s.Failure? {
      return Failure(s.error);
    }
    return Success(ret);
  }

  /** `a * other`. */
  method Mul(a: Element, known: set<Name>, rules: seq<Relation>, other: Value, fuel: nat) returns (r: Result<Element>)
    requires other.VElement? ==> other.e.Valid()
    ensures r.Success? ==> fresh(r.value) && r.value.Valid() && Times(known, rules, a.terms, other.Snap(), fuel) == Success(r.value.terms)
    ensures r.Failure? ==> Times(known, rules, a.terms, other.Snap(), fuel) == Failure(r.error)
  {
    var o := Operand2(known, rules, other, fuel);
    if o.None? {
      return Failure(TypeError);
    }
    if o.value.Failure? {
      return Failure(o.value.error);
    }
    var b := o.value.value;
    assert Times(known, rules, a.terms, other.Snap(), fuel) == Multiply(known, rules, a.terms, b.terms, fuel);
    r := ProductElement(known, rules, a.terms, b.terms, fuel);
  }

  /** `b * -1`. */
  method Negated(b: Element, known: set<Name>, rules: seq<Relation>, fuel: nat) returns (r: Result<Element>)
    ensures r.Success? ==> fresh(r.value) && r.value.Valid() && Times(known, rules, b.terms, ONumber(-1), fuel) == Success(r.value.terms)
    ensures r.Failure? ==> Times(known, rules, b.terms, ONumber(-1), fuel) == Failure(r.error)
  {
    var minusOne := VNumber(-1);
    assert minusOne.Snap() == ONumber(-1);
    r := Mul(b, known, rules, minusOne, fuel);
  }

  /** `a - b` for an Element `b`: `b * -1`, then the sum. */
  method SubElement(a: Element, known: set<Name>, rules: seq<Relation>, b: Element, fuel: nat) returns (r: Result<Element>)
    requires a.Valid() && b.Valid()
    ensures r.Success? ==> fresh(r.value) && r.value.Valid() && Minus(known, rules, a.terms, OTerms(b.terms), fuel) == Success(r.value.terms)
    ensures r.Failure? ==> Minus(known, rules, a.terms, OTerms(b.terms), fuel) == Failure(r.error)
  {
    var nb := Negated(b, known, rules, fuel);
    if nb.Failure? {
      return Failure(nb.error);
    }
    var sum := VElement(nb.value);
    assert sum.Snap() == OTerms(nb.value.terms);
    r := Add(a, known, rules, sum, fuel);
  }

  /** `a + -n`, the sum `a - n` computes for a Number `n`. */
  method AddNegated(a: Element, known: set<Name>, rules: seq<Relation>, n: int, fuel: nat) returns (r: Result<Element>)
    requires a.Valid()
    ensures r.Success? ==> fresh(r.value) && r.value.Valid() && Plus(known, rules, a.terms, ONumber(n * -1), fuel) == Success(r.value.terms)
    ensures r.Failure? ==> Plus(known, rules, a.terms, ONumber(n * -1), fuel) == Failure(r.error)
  {
    var neg := VNumber(n * -1);
    assert neg.Snap() == ONumber(n * -1);
    r := Add(a, known, rules, neg, fuel);
  }

  /** `a - other` for an `other` that is not an Element. */
  method SubScalar(a: Element, known: set<Name>, rules: seq<Relation>, other: Value, fuel: nat) returns (r: Result<Element>)
    requires a.Valid() && !other.VElement?
    ensures r.Success? ==> fresh(r.value) && r.value.Valid() && Minus(known, rules, a.terms, other.Snap(), fuel) == Success(r.value.terms)
    ensures r.Failure? ==> Minus(known, rules, a.terms, other.Snap(), fuel) == Failure(r.error)
  {
    match other
    case VNumber(n) =>
      r := AddNegated(a, known, rules, n, fuel);
    case VStr(s) =>
      r := Add(a, known, rules, VStr(""), fuel);
    case _ =>
      r := Failure(TypeError);
  }

  /** `a - other`, computed as `a + other * -1`: an Element is negated by `*`, a
      Number by arithmetic, and `str * -1` is the empty str. */
  method Sub(a: Element, known: set<Name>, rules: seq<Relation>, other: Value, fuel: nat) returns (r: Result<Element>)
    requires a.Valid() && (other.VElement? ==> other.e.Valid())
    ensures r.Success? ==> fresh(r.value) && r.value.Valid() && Minus(known, rules, a.terms, other.Snap(), fuel) == Success(r.value.terms)
    ensures r.Failure? ==> Minus(known, rules, a.terms, other.Snap(), fuel) == Failure(r.error)
  {
    if other.VElement? {
      r := SubElement(a, known, rules, other.e, fuel);
    } else {
      r := SubScalar(a, known, rules, other, fuel);
    }
  }

  /** The comparison of `__eq__`: every word stored in either map reads the same
      coefficient in both. */
  method CompareCoefficients(at: Terms, rhs: Terms) returns (same: bool)
    ensures same == SameCoefficients(at, rhs)
  {
    for i := 0 to |at.order|
      invariant forall k | 0 <= k < i :: Get(at, at.order[k]) == Get(rhs, at.order[k])
    {
      if Get(at, at.order[i]) != Get(rhs, at.order[i]) {
        return false;
      }
    }
    for i := 0 to |rhs.order|
      invariant forall k | 0 <= k < i :: Get(at, rhs.order[k]) == Get(rhs, rhs.order[k])
    {
      if Get(at, rhs.order[i]) != Get(rhs, rhs.order[i]) {
        return false;
      }
    }
    return true;
  }

  /** `a == other`: equal coefficients on every word stored in either. */
  method Equals(a: Element, known: set<Name>, rules: seq<Relation>, other: Value, fuel: nat) returns (r: Result<bool>)
    requires other.VElement? ==> other.e.Valid()
    ensures r == Equal(known, rules, a.terms, other.Snap(), fuel)
  {
    var o := Operand2(known, rules, other, fuel);
    if o.None? {
      return Failure(TypeError);
    }
    if o.value.Failure? {
      return Failure(o.value.error);
    }
    var same := CompareCoefficients(a.terms, o.value.value.terms);
    return Success(same);
  }
}
