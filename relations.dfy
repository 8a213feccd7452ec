/** Rewriting rules and the table that holds them (`Relation` in relation.py,
    `config.relations` in config.py).

    The table is a dict keyed by left-hand side. The model keeps it as the
    sequence of its rules in iteration order, with pairwise distinct left-hand
    sides: a new left-hand side goes to the end, and re-declaring an existing one
    replaces that rule where it stands. */
module Relations {
  import opened Wrappers
  import opened Words

  /** One `(coeff, varword)` pair of a right-hand side. */
  datatype Term = Term(coeff: int, word: Word)

  /** `lhs = sum of coeff * word` over `rhs`, in the order given. */
  datatype Relation = Relation(lhs: Word, rhs: seq<Term>)

  predicate DistinctLhs(table: seq<Relation>) {
    forall i, j | 0 <= i < j < |table| :: table[i].lhs != table[j].lhs
  }

  /** `config.relations.get(lhs)`. */
  function Lookup(table: seq<Relation>, lhs: Word): Option<Relation> {
    if table == [] then None
    else if table[0].lhs == lhs then Some(table[0])
    else Lookup(table[1..], lhs)
  }

  /** `config.relations[rel.lhs] = rel`. */
  function Register(table: seq<Relation>, rel: Relation): seq<Relation> {
    if table == [] then [rel]
    else if table[0].lhs == rel.lhs then [rel] + table[1..]
    else [table[0]] + Register(table[1..], rel)
  }

  /** Registering several rules one after the other. */
  function RegisterAll(table: seq<Relation>, rules: seq<Relation>): seq<Relation> {
    if rules == [] then table
    else Register(RegisterAll(table, rules[..|rules| - 1]), rules[|rules| - 1])
  }

  /** A lookup finds a rule of the table with the requested left-hand side, and
      finds nothing exactly when there is none. */
  lemma {:induction false} LookupMeaning(table: seq<Relation>, lhs: Word)
    ensures Lookup(table, lhs).Some? ==> Lookup(table, lhs).value.lhs == lhs && Lookup(table, lhs).value in table
    ensures Lookup(table, lhs).None? <==> forall i | 0 <= i < |table| :: table[i].lhs != lhs
  {
    if table != [] && table[0].lhs != lhs {
      LookupMeaning(table[1..], lhs);
      assert forall i | 1 <= i < |table| :: table[i] == table[1..][i - 1];
    }
  }

  /** After registration the table maps the rule's left-hand side to the rule, and
      every other left-hand side to what it mapped to before. */
  lemma {:induction false} RegisterLookup(table: seq<Relation>, rel: Relation, lhs: Word)
    ensures Lookup(Register(table, rel), lhs) == if lhs == rel.lhs then Some(rel) else Lookup(table, lhs)
  {
    if table != [] && table[0].lhs != rel.lhs {
      RegisterLookup(table[1..], rel, lhs);
    }
  }

  /** Where registration puts the rule: in place of the rule with the same
      left-hand side, all other positions unchanged, or else at the end. */
  lemma RegisterPosition(table: seq<Relation>, rel: Relation)
    requires DistinctLhs(table)
    ensures DistinctLhs(Register(table, rel))
    ensures Lookup(table, rel.lhs).None? ==> Register(table, rel) == table + [rel]
    ensures Lookup(table, rel.lhs).Some? ==>
      && |Register(table, rel)| == |table|
      && forall i | 0 <= i < |table| ::
           Register(table, rel)[i] == if table[i].lhs == rel.lhs then rel else table[i]
  {
    LookupMeaning(table, rel.lhs);
    if Lookup(table, rel.lhs).None? {
      RegisterAppends(table, rel);
      var r := table + [rel];
      forall i, j | 0 <= i < j < |r| ensures r[i].lhs != r[j].lhs {
        if j == |table| {
          assert r[i] == table[i];
        } else {
          assert r[i] == table[i] && r[j] == table[j];
        }
      }
    } else {
      RegisterReplaces(table, rel);
      var r := Register(table, rel);
      forall i, j | 0 <= i < j < |r| ensures r[i].lhs != r[j].lhs {
        assert r[i].lhs == table[i].lhs && r[j].lhs == table[j].lhs;
      }
    }
  }

  /** A new left-hand side goes to the end. */
  lemma {:induction false} RegisterAppends(table: seq<Relation>, rel: Relation)
    requires forall i | 0 <= i < |table| :: table[i].lhs != rel.lhs
    ensures Register(table, rel) == table + [rel]
  {
    if table != [] {
      var tail := table[1..];
      forall i | 0 <= i < |tail| ensures tail[i].lhs != rel.lhs {
        assert tail[i] == table[i + 1];
      }
      RegisterAppends(tail, rel);
      assert [table[0]] + (tail + [rel]) == table + [rel];
    }
  }

  /** A known left-hand side is replaced where it stands. */
  lemma {:induction false} RegisterReplaces(table: seq<Relation>, rel: Relation)
    requires DistinctLhs(table) && Lookup(table, rel.lhs).Some?
    ensures |Register(table, rel)| == |table|
    ensures forall i | 0 <= i < |table| ::
      Register(table, rel)[i] == if table[i].lhs == rel.lhs then rel else table[i]
  {
    var tail := table[1..];
    var r := Register(table, rel);
    if table[0].lhs == rel.lhs {
      forall i | 0 <= i < |table| ensures r[i] == if table[i].lhs == rel.lhs then rel else table[i] {
        if i > 0 {
          assert table[0].lhs != table[i].lhs;
          assert r[i] == tail[i - 1] == table[i];
        }
      }
    } else {
      assert DistinctLhs(tail) by {
        forall i, j | 0 <= i < j < |tail| ensures tail[i].lhs != tail[j].lhs {
          assert tail[i] == table[i + 1] && tail[j] == table[j + 1];
        }
      }
      RegisterReplaces(tail, rel);
      var rt := Register(tail, rel);
      assert r == [table[0]] + rt;
      forall i | 0 <= i < |table| ensures r[i] == if table[i].lhs == rel.lhs then rel else table[i] {
        if i > 0 {
          assert r[i] == rt[i - 1] && tail[i - 1] == table[i];
        }
      }
    }
  }

  lemma RegisterAllSnoc(table: seq<Relation>, rules: seq<Relation>, rel: Relation)
    ensures RegisterAll(table, rules + [rel]) == Register(RegisterAll(table, rules), rel)
  {
    assert (rules + [rel])[..|rules|] == rules;
  }

  /** Declaring the same rule twice leaves the table as declaring it once. */
  lemma {:induction false} RegisterTwice(table: seq<Relation>, rel: Relation)
    ensures Register(Register(table, rel), rel) == Register(table, rel)
  {
    if table != [] && table[0].lhs != rel.lhs {
      RegisterTwice(table[1..], rel);
    }
  }

  /** After registering `rules` in order, a left-hand side `lhs` maps to `rel` when
      `rel` is one of the rules and every rule with that left-hand side is `rel`. */
  lemma {:induction false} RegisterAllLookup(table: seq<Relation>, rules: seq<Relation>, rel: Relation)
    requires rel in rules
    requires forall i | 0 <= i < |rules| :: rules[i].lhs == rel.lhs ==> rules[i] == rel
    ensures Lookup(RegisterAll(table, rules), rel.lhs) == Some(rel)
  {
    var n := |rules|;
    var init := rules[..n - 1];
    RegisterLookup(RegisterAll(table, init), rules[n - 1], rel.lhs);
    if rules[n - 1] != rel {
      assert rel in init by {
        var k :| 0 <= k < n && rules[k] == rel;
        assert k < n - 1;
        assert init[k] == rel;
      }
      RegisterAllLookup(table, init, rel);
    }
  }

  /** Registering several rules keeps the left-hand sides distinct. */
  lemma {:induction false} RegisterAllDistinct(table: seq<Relation>, rules: seq<Relation>)
    requires DistinctLhs(table)
    ensures DistinctLhs(RegisterAll(table, rules))
  {
    if rules != [] {
      RegisterAllDistinct(table, rules[..|rules| - 1]);
      RegisterPosition(RegisterAll(table, rules[..|rules| - 1]), rules[|rules| - 1]);
    }
  }

  // ---------------------------------------------------------------------------
  // Relation.__init__: validation, then registration
  // ---------------------------------------------------------------------------

  /** A word-valued argument: a VariableWord, a Variable (by its name), or
      anything else. */
  datatype WordArg = AWord(w: Word) | AVar(name: Name) | AOther

  /** A right-hand-side coefficient: a Number, or anything else. */
  datatype CoeffArg = Num(n: int) | NotNumber

  /** One argument of `*rhs`: a `(coeff, varword)` pair, or a value that
      `for coeff, varword in rhs` cannot unpack into two, either because it is
      not iterable (TypeError) or because it has another length (ValueError). */
  datatype RhsArg = RhsArg(coeff: CoeffArg, word: WordArg) | NotIterable | WrongLength

  /** A VariableWord is taken as it is, a Variable is wrapped as a one-letter word
      (which needs its name registered), anything else is a TypeError. */
  function WordOf(known: set<Name>, a: WordArg): Result<Word> {
    match a
    case AWord(w) => Success(w)
    case AVar(n) => if n in known then Success([n]) else Failure(UnknownVariableName)
    case AOther => Failure(TypeError)
  }

  /** The unpacking comes first, then the coefficient, then the word. */
  function TermOf(known: set<Name>, a: RhsArg): Result<Term> {
    if a.NotIterable? then Failure(TypeError)
    else if a.WrongLength? then Failure(ValueError)
    else if a.coeff.NotNumber? then Failure(TypeError)
    else match WordOf(known, a.word)
      case Failure(e) => Failure(e)
      case Success(w) => Success(Term(a.coeff.n, w))
  }

  function TermsOf(known: set<Name>, rhs: seq<RhsArg>): Result<seq<Term>> {
    if rhs == [] then Success([])
    else match TermsOf(known, rhs[..|rhs| - 1])
      case Failure(e) => Failure(e)
      case Success(ts) =>
        match TermOf(known, rhs[|rhs| - 1])
        case Failure(e) => Failure(e)
        case Success(t) => Success(ts + [t])
  }

  /** The relation `Relation(lhs, *rhs)` builds, or the exception it raises. */
  function RelationOf(known: set<Name>, lhs: WordArg, rhs: seq<RhsArg>): Result<Relation> {
    match WordOf(known, lhs)
    case Failure(e) => Failure(e)
    case Success(l) =>
      match TermsOf(known, rhs)
      case Failure(e) => Failure(e)
      case Success(ts) => Success(Relation(l, ts))
  }

  /** The right-hand side is accepted exactly when every pair is; it is then stored
      pair by pair in the order given; otherwise the exception is that of the first
      rejected pair. */
  lemma {:induction false} TermsOfMeaning(known: set<Name>, rhs: seq<RhsArg>)
    ensures TermsOf(known, rhs).Success? <==> forall i | 0 <= i < |rhs| :: TermOf(known, rhs[i]).Success?
    ensures TermsOf(known, rhs).Success? ==>
      var ts := TermsOf(known, rhs).value;
      |ts| == |rhs| && forall i | 0 <= i < |rhs| :: ts[i] == TermOf(known, rhs[i]).value
    ensures TermsOf(known, rhs).Failure? ==>
      exists i | 0 <= i < |rhs| ::
        && TermOf(known, rhs[i]).Failure?
        && TermsOf(known, rhs).error == TermOf(known, rhs[i]).error
        && forall k | 0 <= k < i :: TermOf(known, rhs[k]).Success?
  {
    if rhs != [] {
      var init := rhs[..|rhs| - 1];
      TermsOfMeaning(known, init);
      assert forall i | 0 <= i < |init| :: init[i] == rhs[i];
    }
  }

  /** Once a prefix of the right-hand side is rejected, so is the whole, with the
      same exception. */
  lemma {:induction false} TermsOfPrefix(known: set<Name>, rhs: seq<RhsArg>, n: nat)
    requires n <= |rhs|
    ensures TermsOf(known, rhs[..n]).Failure? ==> TermsOf(known, rhs) == TermsOf(known, rhs[..n])
    decreases |rhs| - n
  {
    if n < |rhs| {
      var init := rhs[..|rhs| - 1];
      assert init[..n] == rhs[..n];
      TermsOfPrefix(known, init, n);
    } else {
      assert rhs[..n] == rhs;
    }
  }

  lemma TermsOfSnoc(known: set<Name>, rhs: seq<RhsArg>, i: nat)
    requires i < |rhs|
    ensures TermsOf(known, rhs[..i + 1]) ==
      match TermsOf(known, rhs[..i])
      case Failure(e) => Failure(e)
      case Success(ts) =>
        match TermOf(known, rhs[i])
        case Failure(e) => Failure(e)
        case Success(t) => Success(ts + [t])
  {
    assert rhs[..i + 1][..i] == rhs[..i];
  }

  /** `config.relations`. */
  class RelationTable {
    var rules: seq<Relation>

    ghost predicate Valid()
      reads this
    {
      DistinctLhs(rules)
    }

    constructor ()
      ensures Valid() && rules == []
    {
      rules := [];
    }

    /** `Relation(lhs, *rhs)`: validate the left-hand side, build the right-hand side
        pair by pair, then register. Registration is the last step, so a
        construction that raises leaves the table unchanged. `known` is the set of
        registered variable names. */
    method Declare(known: set<Name>, lhs: WordArg, rhs: seq<RhsArg>) returns (r: Result<Relation>)
      requires Valid()
      modifies this
      ensures Valid()
      ensures r == RelationOf(known, lhs, rhs)
      ensures rules == if r.Success? then Register(old(rules), r.value) else old(rules)
    {
      var l: Word;
      match lhs {
        case AWord(w) => l := w;
          assert WordOf(known, lhs) == Success(l);
        case AVar(n) =>
          var lw := NewWord(known, [PVar(n)]);
          if lw.Failure? {
            return Failure(UnknownVariableName);
          }
          assert PieceOk(known, [PVar(n)][0]);
          assert lw.value == [n];
          l := lw.value;
          assert WordOf(known, lhs) == Success(l);
        case AOther => return Failure(TypeError);
      }
      assert WordOf(known, lhs) == Success(l);
      var ts: seq<Term> := [];
      for i := 0 to |rhs|
        invariant TermsOf(known, rhs[..i]) == Success(ts)
        invariant rules == old(rules)
      {
        TermsOfSnoc(known, rhs, i);
        if rhs[i].NotIterable? || rhs[i].WrongLength? {
          TermsOfPrefix(known, rhs, i + 1);
          return Failure(if rhs[i].NotIterable? then TypeError else ValueError);
        }
        var coeff, varword := rhs[i].coeff, rhs[i].word;
        if coeff.NotNumber? {
          TermsOfPrefix(known, rhs, i + 1);
          return Failure(TypeError);
        }
        var t: Term;
        match varword {
          case AWord(w) => t := Term(coeff.n, w);
          case AVar(n) =>
            var vw := NewWord(known, [PVar(n)]);
            if vw.Failure? {
              assert !PieceOk(known, [PVar(n)][0]);
              TermsOfPrefix(known, rhs, i + 1);
              return Failure(UnknownVariableName);
            }
            assert PieceOk(known, [PVar(n)][0]);
            assert vw.value == [n];
            t := Term(coeff.n, vw.value);
          case AOther =>
            TermsOfPrefix(known, rhs, i + 1);
            return Failure(TypeError);
        }
        ts := ts + [t];
      }
      assert rhs[..|rhs|] == rhs;
      var rel := Relation(l, ts);
      RegisterPosition(rules, rel);
      rules := Register(rules, rel);
      return Success(rel);
    }
  }
}
