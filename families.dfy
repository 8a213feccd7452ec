/** The two module-level helpers of element.py that declare variables together
    with the rules among them: `make_poly_family` (q-commuting families) and
    `add_central_variable` (a variable that commutes with every known one). */
module Families {
  import opened Wrappers
  import opened Words
  import opened Variables
  import opened Relations
  import opened Coefficients
  import opened Arithmetic
  import opened Elements

  // ---------------------------------------------------------------------------
  // make_poly_family
  // ---------------------------------------------------------------------------

  /** The `commute` keyword: absent, a Number, a callable from the two variables
      to the coefficient (which may hand back something that is not a Number),
      or a value that is neither a Number nor callable. */
  datatype Commute =
    | DefaultCommute
    | Constant(c: int)
    | Callable(f: (Name, Name) -> CoeffArg)
    | Uncallable

  /** `com(x, y)`. Calling a value that is not callable raises TypeError, as
      does a coefficient that is not a Number once `Relation` checks it; both are
      the `NotNumber` outcome here. */
  function CommuteCoeff(commute: Commute, x: Name, y: Name): CoeffArg {
    match commute
    case DefaultCommute => Num(1)
    case Constant(c) => Num(c)
    case Callable(f) => f(x, y)
    case Uncallable => NotNumber
  }

  /** `Relation(y*x, (com(x, y), x*y))`: `y * x = c * x * y`. */
  function FamilyRelation(commute: Commute, x: Name, y: Name): Result<Relation> {
    var c := CommuteCoeff(commute, x, y);
    if c.Num? then Success(Relation([y, x], [Term(c.n, [x, y])])) else Failure(TypeError)
  }

  /** The rules declared so far, and the exception that stopped the loops. */
  datatype Declared = Declared(rules: seq<Relation>, error: Option<Error>)

  /** One pass of the inner loop for the arguments `x` before `y`. */
  function Step(commute: Commute, d: Declared, x: Name, y: Name): Declared {
    match FamilyRelation(commute, x, y)
    case Failure(e) => Declared(d.rules, Some(e))
    case Success(rel) => Declared(d.rules + [rel], None)
  }

  /** The rest of the inner loop for the argument at `i`, from `j` on. */
  function RowFrom(commute: Commute, names: seq<Name>, i: nat, j: nat, d: Declared): Declared
    requires i < |names|
    decreases |names| - j
  {
    if d.error.Some? || j >= |names| then d
    else RowFrom(commute, names, i, j + 1, Step(commute, d, names[i], names[j]))
  }

  /** The rest of the outer loop, from the argument at `i` on. */
  function From(commute: Commute, names: seq<Name>, i: nat, d: Declared): Declared
    decreases |names| - i
  {
    if d.error.Some? || i >= |names| then d
    else From(commute, names, i + 1, RowFrom(commute, names, i, i + 1, d))
  }

  /** What the nested loops of `make_poly_family` declare, and how they end. */
  function Family(commute: Commute, names: seq<Name>): Declared {
    From(commute, names, 0, Declared([], None))
  }

  /** The coefficient for `x` before `y` is a Number. */
  predicate Accepted(commute: Commute, x: Name, y: Name) {
    CommuteCoeff(commute, x, y).Num?
  }

  /** Every declared rule is the family rule of its own left-hand side. */
  predicate Coherent(commute: Commute, rules: seq<Relation>) {
    forall m | 0 <= m < |rules| ::
      |rules[m].lhs| == 2 && FamilyRelation(commute, rules[m].lhs[1], rules[m].lhs[0]) == Success(rules[m])
  }

  /** The only exception the loops raise is TypeError. */
  predicate Settled(d: Declared) {
    d.error.None? || d.error == Some(TypeError)
  }

  lemma StepMeaning(commute: Commute, d: Declared, x: Name, y: Name)
    requires d.error.None?
    ensures Step(commute, d, x, y).error.None? <==> Accepted(commute, x, y)
    ensures Settled(Step(commute, d, x, y))
    ensures Accepted(commute, x, y) ==>
      Step(commute, d, x, y).rules == d.rules + [FamilyRelation(commute, x, y).value]
    ensures !Accepted(commute, x, y) ==> Step(commute, d, x, y).rules == d.rules
    ensures Coherent(commute, d.rules) ==> Coherent(commute, Step(commute, d, x, y).rules)
  {
    var r := Step(commute, d, x, y).rules;
    if Accepted(commute, x, y) && Coherent(commute, d.rules) {
      assert r[|d.rules|].lhs == [y, x];
    }
  }

  /** The inner loop from `j` on ends without exception exactly when every
      coefficient for `args[i]` before a later argument from `j` on is a Number;
      it only raises TypeError, keeps the rules declared before it, and declares
      only family rules. */
  lemma {:induction false} RowFromMeaning(commute: Commute, names: seq<Name>, i: nat, j: nat, d: Declared)
    requires i < |names| && d.error.None?
    ensures RowFrom(commute, names, i, j, d).error.None? <==>
      forall b | j <= b < |names| :: Accepted(commute, names[i], names[b])
    ensures Settled(RowFrom(commute, names, i, j, d))
    ensures forall r | r in d.rules :: r in RowFrom(commute, names, i, j, d).rules
    ensures RowFrom(commute, names, i, j, d).error.None? ==>
      forall b | j <= b < |names| :: FamilyRelation(commute, names[i], names[b]).value in RowFrom(commute, names, i, j, d).rules
    ensures Coherent(commute, d.rules) ==> Coherent(commute, RowFrom(commute, names, i, j, d).rules)
    decreases |names| - j
  {
    if j < |names| {
      var d' := Step(commute, d, names[i], names[j]);
      StepMeaning(commute, d, names[i], names[j]);
      if d'.error.None? {
        RowFromMeaning(commute, names, i, j + 1, d');
        assert FamilyRelation(commute, names[i], names[j]).value in d'.rules;
      }
    }
  }

  /** The same for the outer loop from the argument at `i` on. */
  lemma FromMeaning(commute: Commute, names: seq<Name>, i: nat, d: Declared)
    requires d.error.None?
    ensures From(commute, names, i, d).error.None? <==>
      forall a, b | i <= a < b < |names| :: Accepted(commute, names[a], names[b])
    ensures Settled(From(commute, names, i, d))
    ensures forall r | r in d.rules :: r in From(commute, names, i, d).rules
    ensures From(commute, names, i, d).error.None? ==>
      forall a, b | i <= a < b < |names| :: FamilyRelation(commute, names[a], names[b]).value in From(commute, names, i, d).rules
    ensures Coherent(commute, d.rules) ==> Coherent(commute, From(commute, names, i, d).rules)
  {
    FromKeeps(commute, names, i, d);
    FromRetains(commute, names, i, d);
    FromAccepts(commute, names, i, d);
    FromCovers(commute, names, i, d);
  }

  /** The outer loop only raises TypeError and declares only family rules. */
  lemma {:induction false} FromKeeps(commute: Commute, names: seq<Name>, i: nat, d: Declared)
    requires d.error.None?
    ensures Settled(From(commute, names, i, d))
    ensures Coherent(commute, d.rules) ==> Coherent(commute, From(commute, names, i, d).rules)
    decreases |names| - i
  {
    if i < |names| {
      var d' := RowFrom(commute, names, i, i + 1, d);
      RowFromMeaning(commute, names, i, i + 1, d);
      if d'.error.None? {
        FromKeeps(commute, names, i + 1, d');
      }
    }
  }

  /** The inner loop for the argument at `i` keeps the rules declared before it
      and, when it ends without exception, has declared the family rule of that
      argument before every later one. */
  lemma RowCovers(commute: Commute, names: seq<Name>, i: nat, d: Declared)
    requires i < |names| && d.error.None?
    ensures forall r | r in d.rules :: r in RowFrom(commute, names, i, i + 1, d).rules
    ensures RowFrom(commute, names, i, i + 1, d).error.None? ==>
      forall b | i + 1 <= b < |names| ::
        FamilyRelation(commute, names[i], names[b]).Success? &&
        FamilyRelation(commute, names[i], names[b]).value in RowFrom(commute, names, i, i + 1, d).rules
  {
    RowFromMeaning(commute, names, i, i + 1, d);
  }

  /** The outer loop keeps the rules declared before it. */
  lemma {:induction false} FromRetains(commute: Commute, names: seq<Name>, i: nat, d: Declared)
    requires d.error.None?
    ensures forall r | r in d.rules :: r in From(commute, names, i, d).rules
    decreases |names| - i
  {
    if i < |names| {
      var d' := RowFrom(commute, names, i, i + 1, d);
      RowCovers(commute, names, i, d);
      if d'.error.None? {
        FromRetains(commute, names, i + 1, d');
      }
    }
  }

  /** Every coefficient for an argument from `i` on before a later one is a Number. */
  ghost predicate AllAccepted(commute: Commute, names: seq<Name>, i: nat) {
    forall a, b | i <= a < b < |names| :: Accepted(commute, names[a], names[b])
  }

  /** Every family rule for an argument from `i` on before a later one is in `rules`. */
  ghost predicate Covered(commute: Commute, names: seq<Name>, i: nat, rules: seq<Relation>) {
    forall a, b | i <= a < b < |names| ::
      FamilyRelation(commute, names[a], names[b]).Success? && FamilyRelation(commute, names[a], names[b]).value in rules
  }

  /** The outer loop ends without exception exactly when every coefficient for
      an argument before a later one is a Number. */
  lemma {:induction false} FromAccepts(commute: Commute, names: seq<Name>, i: nat, d: Declared)
    requires d.error.None?
    ensures From(commute, names, i, d).error.None? <==> AllAccepted(commute, names, i)
    decreases |names| - i
  {
    if i < |names| {
      var d' := RowFrom(commute, names, i, i + 1, d);
      RowFromMeaning(commute, names, i, i + 1, d);
      AllAcceptedSplit(commute, names, i);
      if d'.error.None? {
        FromAccepts(commute, names, i + 1, d');
      }
    }
  }

  /** The arguments from `i` on are accepted pairwise exactly when the one at `i`
      is accepted before every later one and those from `i + 1` on are pairwise. */
  lemma AllAcceptedSplit(commute: Commute, names: seq<Name>, i: nat)
    requires i < |names|
    ensures AllAccepted(commute, names, i) <==>
      (forall b | i + 1 <= b < |names| :: Accepted(commute, names[i], names[b])) && AllAccepted(commute, names, i + 1)
  {
    if (forall b | i + 1 <= b < |names| :: Accepted(commute, names[i], names[b])) && AllAccepted(commute, names, i + 1) {
      forall a, b | i <= a < b < |names| ensures Accepted(commute, names[a], names[b]) {
        if a > i {
          assert i + 1 <= a;
        }
      }
    }
  }

  /** When it ends without exception, the outer loop has declared every family
      rule for an argument before a later one. */
  lemma {:induction false} FromCovers(commute: Commute, names: seq<Name>, i: nat, d: Declared)
    requires d.error.None?
    ensures From(commute, names, i, d).error.None? ==> Covered(commute, names, i, From(commute, names, i, d).rules)
    decreases |names| - i
  {
    if i < |names| {
      var d' := RowFrom(commute, names, i, i + 1, d);
      RowCovers(commute, names, i, d);
      var f := From(commute, names, i + 1, d');
      assert From(commute, names, i, d) == f;
      if d'.error.None? {
        FromCovers(commute, names, i + 1, d');
        FromRetains(commute, names, i + 1, d');
        if f.error.None? {
          forall b | i + 1 <= b < |names|
            ensures FamilyRelation(commute, names[i], names[b]).Success? && FamilyRelation(commute, names[i], names[b]).value in f.rules
          {
            assert FamilyRelation(commute, names[i], names[b]).value in d'.rules;
          }
          CoveredSplit(commute, names, i, f.rules);
        }
      }
    }
  }

  /** The family rules of the argument at `i` before every later one, with those
      from `i + 1` on, are all those from `i` on. */
  lemma CoveredSplit(commute: Commute, names: seq<Name>, i: nat, rules: seq<Relation>)
    requires i < |names| && Covered(commute, names, i + 1, rules)
    requires forall b | i + 1 <= b < |names| ::
      FamilyRelation(commute, names[i], names[b]).Success? && FamilyRelation(commute, names[i], names[b]).value in rules
    ensures Covered(commute, names, i, rules)
  {
    forall a, b | i <= a < b < |names|
      ensures FamilyRelation(commute, names[a], names[b]).Success? && FamilyRelation(commute, names[a], names[b]).value in rules
    {
      if a > i {
        assert i + 1 <= a;
      }
    }
  }

  /** `make_poly_family`'s loops end without exception exactly when every
      coefficient `com(v1, v2)` for an argument `v1` before an argument `v2` is a
      Number, and otherwise raise TypeError; every rule they declare, even before
      an exception, is `v2 * v1 = com(v1, v2) * v1 * v2` for its own variables. */
  lemma FamilyMeaning(commute: Commute, names: seq<Name>)
    ensures Family(commute, names).error.None? <==>
      forall a, b | 0 <= a < b < |names| :: Accepted(commute, names[a], names[b])
    ensures Family(commute, names).error.Some? ==> Family(commute, names).error == Some(TypeError)
    ensures Coherent(commute, Family(commute, names).rules)
  {
    FromMeaning(commute, names, 0, Declared([], None));
  }

  /** After `make_poly_family(*args, commute=com)` whose loops finished, for an
      argument `v1` before an argument `v2` the table rewrites `v2 * v1` to
      `c * v1 * v2` with `c = com(v1, v2)`, whatever was declared before. */
  lemma FamilyLookup(table: seq<Relation>, names: seq<Name>, commute: Commute, i: nat, j: nat)
    requires i < j < |names|
    requires Family(commute, names).error.None?
    ensures CommuteCoeff(commute, names[i], names[j]).Num?
    ensures Lookup(RegisterAll(table, Family(commute, names).rules), [names[j], names[i]])
      == Some(Relation([names[j], names[i]], [Term(CommuteCoeff(commute, names[i], names[j]).n, [names[i], names[j]])]))
  {
    var rules := Family(commute, names).rules;
    FromMeaning(commute, names, 0, Declared([], None));
    assert Accepted(commute, names[i], names[j]);
    var rel := FamilyRelation(commute, names[i], names[j]).value;
    assert rel in rules;
    forall m | 0 <= m < |rules| && rules[m].lhs == rel.lhs ensures rules[m] == rel {
      assert rules[m].lhs[1] == names[i] && rules[m].lhs[0] == names[j];
    }
    RegisterAllLookup(table, rules, rel);
  }

  /** The keys of `config.variables` after registering `names` in turn: a new name
      goes to the end, a known one keeps its place. */
  function Appended(order: seq<Name>, names: seq<Name>): seq<Name> {
    if names == [] then order
    else
      var o := Appended(order, names[..|names| - 1]);
      if names[|names| - 1] in o then o else o + [names[|names| - 1]]
  }

  /** Registration adds exactly the new names, once each, after the known ones. */
  lemma {:induction false} AppendedMeaning(order: seq<Name>, names: seq<Name>)
    ensures forall x :: x in Appended(order, names) <==> x in order || x in names
    ensures order <= Appended(order, names)
    ensures (forall i, j | 0 <= i < j < |order| :: order[i] != order[j]) ==>
      forall i, j | 0 <= i < j < |Appended(order, names)| :: Appended(order, names)[i] != Appended(order, names)[j]
  {
    if names != [] {
      var init := names[..|names| - 1];
      AppendedMeaning(order, init);
      assert names == init + [names[|names| - 1]];
    }
  }

  lemma RelationOfPair(known: set<Name>, l: Word, c: CoeffArg, w: Word)
    ensures RelationOf(known, AWord(l), [RhsArg(c, AWord(w))]) ==
      if c.Num? then Success(Relation(l, [Term(c.n, w)])) else Failure(TypeError)
  {
    var a := RhsArg(c, AWord(w));
    assert [a][..0] == [];
    assert TermsOf(known, [a][..0]) == Success([]);
    if c.Num? {
      assert TermOf(known, a) == Success(Term(c.n, w));
      assert [] + [Term(c.n, w)] == [Term(c.n, w)];
    }
  }

  /** `Variable(x)` for each argument, registering the new names. */
  method RegisterNames(reg: Registry, names: seq<Name>)
    requires reg.Valid()
    modifies reg
    ensures reg.Valid()
    ensures reg.order == Appended(old(reg.order), names)
    ensures forall n | n in old(reg.variables) :: n in reg.variables && reg.variables[n] == old(reg.variables)[n]
    ensures forall k | 0 <= k < |names| :: names[k] in reg.Known()
  {
    for k := 0 to |names|
      invariant reg.Valid()
      invariant reg.order == Appended(old(reg.order), names[..k])
      invariant forall n | n in old(reg.variables) :: n in reg.variables && reg.variables[n] == old(reg.variables)[n]
    {
      var v := NewVariable(reg, names[k], 0, false);
      assert names[..k + 1][..k] == names[..k];
    }
    assert names[..|names|] == names;
    AppendedMeaning(old(reg.order), names);
  }

  /** One pass of the inner loop: `config.relations[y*x] = Relation(y*x, (com(x, y), x*y))`.
      Both names are registered, so both words are accepted. */
  method DeclarePair(known: set<Name>, table: RelationTable, commute: Commute, x: Name, y: Name)
    returns (rel: Result<Relation>)
    requires table.Valid() && x in known && y in known
    modifies table
    ensures table.Valid()
    ensures rel == FamilyRelation(commute, x, y)
    ensures table.rules == if rel.Success? then Register(old(table.rules), rel.value) else old(table.rules)
  {
    var lhs := NewWord(known, [PVar(y), PVar(x)]);
    assert PieceOk(known, [PVar(y), PVar(x)][0]) && PieceOk(known, [PVar(y), PVar(x)][1]);
    var c := CommuteCoeff(commute, x, y);
    var rhs := NewWord(known, [PVar(x), PVar(y)]);
    assert PieceOk(known, [PVar(x), PVar(y)][0]) && PieceOk(known, [PVar(x), PVar(y)][1]);
    assert lhs.value == [y, x] && rhs.value == [x, y];
    RelationOfPair(known, lhs.value, c, rhs.value);
    rel := table.Declare(known, AWord(lhs.value), [RhsArg(c, AWord(rhs.value))]);
    if rel.Success? {
      // The assignment stores the same rule under the same key again.
      RegisterTwice(old(table.rules), rel.value);
      table.rules := Register(table.rules, rel.value);
    }
  }

  /** The inner loop of `make_poly_family` for the argument at `i`, started in
      the state `d` of the declarations. */
  method DeclareRow(known: set<Name>, table: RelationTable, names: seq<Name>, commute: Commute, i: nat,
                    ghost base: seq<Relation>, ghost d: Declared)
    returns (err: Option<Error>, ghost d': Declared)
    requires table.Valid() && forall k | 0 <= k < |names| :: names[k] in known
    requires i < |names| && d.error.None? && table.rules == RegisterAll(base, d.rules)
    modifies table
    ensures table.Valid()
    ensures d' == RowFrom(commute, names, i, i + 1, d) && err == d'.error
    ensures table.rules == RegisterAll(base, d'.rules)
  {
    d' := d;
    for j := i + 1 to |names|
      invariant table.Valid() && d'.error.None?
      invariant RowFrom(commute, names, i, j, d') == RowFrom(commute, names, i, i + 1, d)
      invariant table.rules == RegisterAll(base, d'.rules)
    {
      var rel := DeclarePair(known, table, commute, names[i], names[j]);
      var next := Step(commute, d', names[i], names[j]);
      if rel.Failure? {
        return Some(rel.error), next;
      }
      RegisterAllSnoc(base, d'.rules, rel.value);
      d' := next;
    }
    err := None;
  }

  /** The nested loops of `make_poly_family` over `i < j`. */
  method DeclareFamily(known: set<Name>, table: RelationTable, names: seq<Name>, commute: Commute)
    returns (err: Option<Error>)
    requires table.Valid() && forall k | 0 <= k < |names| :: names[k] in known
    modifies table
    ensures table.Valid()
    ensures err == Family(commute, names).error
    ensures table.rules == RegisterAll(old(table.rules), Family(commute, names).rules)
  {
    ghost var d := Declared([], None);
    for i := 0 to |names|
      invariant table.Valid() && d.error.None?
      invariant From(commute, names, i, d) == Family(commute, names)
      invariant table.rules == RegisterAll(old(table.rules), d.rules)
    {
      err, d := DeclareRow(known, table, names, commute, i, old(table.rules), d);
      if err.Some? {
        return;
      }
    }
    return None;
  }

  /** `tuple(f(x) for x in xs)`: the results in order; the first `x` for which
      `f` raises stops the rest, with that exception. */
  function Collect<A, B>(f: A -> Result<B>, xs: seq<A>): Result<seq<B>> {
    if xs == [] then Success([])
    else match Collect(f, xs[..|xs| - 1])
      case Failure(e) => Failure(e)
      case Success(ys) =>
        match f(xs[|xs| - 1])
        case Failure(e) => Failure(e)
        case Success(y) => Success(ys + [y])
  }

  /** Once an element of a prefix raises, the whole tuple raises the same. */
  lemma {:induction false} CollectPrefix<A, B>(f: A -> Result<B>, xs: seq<A>, n: nat)
    requires n <= |xs|
    ensures Collect(f, xs[..n]).Failure? ==> Collect(f, xs) == Collect(f, xs[..n])
    decreases |xs| - n
  {
    if n < |xs| {
      var init := xs[..|xs| - 1];
      assert init[..n] == xs[..n];
      CollectPrefix(f, init, n);
    } else {
      assert xs[..n] == xs;
    }
  }

  /** The tuple is built exactly when every element is, and then holds them in
      order; otherwise its exception is that of the first element that raises. */
  lemma {:induction false} CollectMeaning<A, B>(f: A -> Result<B>, xs: seq<A>)
    ensures Collect(f, xs).Success? <==> forall i | 0 <= i < |xs| :: f(xs[i]).Success?
    ensures Collect(f, xs).Success? ==>
      |Collect(f, xs).value| == |xs| && forall i | 0 <= i < |xs| :: Collect(f, xs).value[i] == f(xs[i]).value
    ensures Collect(f, xs).Failure? ==>
      exists i | 0 <= i < |xs| ::
        && f(xs[i]).Failure? && Collect(f, xs).error == f(xs[i]).error
        && forall k | 0 <= k < i :: f(xs[k]).Success?
  {
    if xs != [] {
      var init := xs[..|xs| - 1];
      CollectMeaning(f, init);
      assert forall i | 0 <= i < |init| :: init[i] == xs[i];
      if Collect(f, init).Failure? {
        var i :| 0 <= i < |init| && f(init[i]).Failure? && Collect(f, init).error == f(init[i]).error
          && forall k | 0 <= k < i :: f(init[k]).Success?;
        assert xs[i] == init[i];
      }
    }
  }

  /** The terms of `tuple(Element(v) for v in variables)`. */
  function Constructed(known: set<Name>, table: seq<Relation>, names: seq<Name>, fuel: nat): Result<seq<Terms>> {
    Collect(n => Construct(known, table, OVariable(n), fuel), names)
  }

  /** `tuple(Element(v) for v in variables)`. */
  method FamilyElements(known: set<Name>, rules: seq<Relation>, names: seq<Name>, fuel: nat)
    returns (r: Result<seq<Element>>)
    ensures r.Success? ==>
      && Constructed(known, rules, names, fuel).Success?
      && |r.value| == |Constructed(known, rules, names, fuel).value| == |names|
      && forall k | 0 <= k < |names| ::
        && fresh(r.value[k]) && r.value[k].Valid()
        && r.value[k].terms == Constructed(known, rules, names, fuel).value[k]
    ensures r.Failure? ==> Constructed(known, rules, names, fuel) == Failure(r.error)
  {
    var es: seq<Element> := [];
    ghost var ts: seq<Terms> := [];
    for k := 0 to |names|
      invariant Constructed(known, rules, names[..k], fuel) == Success(ts)
      invariant |es| == |ts| == k
      invariant forall m | 0 <= m < k :: fresh(es[m]) && es[m].Valid() && es[m].terms == ts[m]
    {
      assert names[..k + 1][..k] == names[..k];
      var e := NewElement(known, rules, OVariable(names[k]), fuel);
      if e.Failure? {
        CollectPrefix(n => Construct(known, rules, OVariable(n), fuel), names, k + 1);
        return Failure(e.error);
      }
      es := es + [e.value];
      ts := ts + [e.value.terms];
    }
    assert names[..|names|] == names;
    return Success(es);
  }

  /** `make_poly_family(*names, commute=commute)`: register the names, declare
      `y * x = com(x, y) * x * y` for every argument `x` before an argument `y`,
      then return `Element(v)` for each argument. */
  method MakePolyFamily(reg: Registry, table: RelationTable, names: seq<Name>, commute: Commute, fuel: nat)
    returns (r: Result<seq<Element>>)
    requires reg.Valid() && table.Valid()
    modifies reg, table
    ensures reg.Valid() && table.Valid()
    ensures reg.order == Appended(old(reg.order), names)
    ensures forall n | n in old(reg.variables) :: n in reg.variables && reg.variables[n] == old(reg.variables)[n]
    ensures table.rules == RegisterAll(old(table.rules), Family(commute, names).rules)
    ensures Family(commute, names).error.Some? ==> r == Failure(Family(commute, names).error.value)
    ensures r.Success? ==>
      && Family(commute, names).error.None?
      && |r.value| == |names|
      && Constructed(reg.Known(), table.rules, names, fuel).Success?
      && |Constructed(reg.Known(), table.rules, names, fuel).value| == |names|
      && forall k | 0 <= k < |names| ::
        && fresh(r.value[k]) && r.value[k].Valid()
        && r.value[k].terms == Constructed(reg.Known(), table.rules, names, fuel).value[k]
    ensures r.Failure? && Family(commute, names).error.None? ==>
      Constructed(reg.Known(), table.rules, names, fuel) == Failure(r.error)
  {
    RegisterNames(reg, names);
    var err := DeclareFamily(reg.Known(), table, names, commute);
    if err.Some? {
      return Failure(err.value);
    }
    r := FamilyElements(reg.Known(), table.rules, names, fuel);
  }

  // ---------------------------------------------------------------------------
  // add_central_variable
  // ---------------------------------------------------------------------------

  /** The argument of `add_central_variable`: a str, a Variable (by its name), or
      anything else. */
  datatype NewVar = NewVarName(s: Name) | NewVarObject(name: Name) | NewVarOther

  function VarName(newvar: NewVar): Name
    requires !newvar.NewVarOther?
  {
    if newvar.NewVarName? then newvar.s else newvar.name
  }

  /** `u * v = 1 * v * u`. */
  function CentralRule(u: Name, v: Name): Relation {
    Relation([u, v], [Term(1, [v, u])])
  }

  /** The rules the loop over the first `i` known names declares for `v`, in
      that order. */
  function CentralUpTo(order: seq<Name>, i: nat, v: Name): seq<Relation>
    requires i <= |order|
  {
    if i == 0 then []
    else CentralUpTo(order, i - 1, v) + (if order[i - 1] != v then [CentralRule(order[i - 1], v)] else [])
  }

  /** The rules the loop over all known names declares for `v`. */
  function CentralRules(order: seq<Name>, v: Name): seq<Relation> {
    CentralUpTo(order, |order|, v)
  }

  /** One rule for every known name other than `v`, and nothing else. */
  lemma {:induction false} CentralUpToMeaning(order: seq<Name>, i: nat, v: Name)
    requires i <= |order|
    ensures forall k | 0 <= k < i && order[k] != v :: CentralRule(order[k], v) in CentralUpTo(order, i, v)
    ensures forall m | 0 <= m < |CentralUpTo(order, i, v)| ::
      var rule := CentralUpTo(order, i, v)[m];
      && |rule.lhs| == 2 && rule == CentralRule(rule.lhs[0], v) && rule.lhs[0] in order[..i] && rule.lhs[0] != v
  {
    if i > 0 {
      CentralUpToMeaning(order, i - 1, v);
      var front := CentralUpTo(order, i - 1, v);
      var rules := CentralUpTo(order, i, v);
      assert order[..i] == order[..i - 1] + [order[i - 1]];
      forall m | 0 <= m < |rules|
        ensures |rules[m].lhs| == 2 && rules[m] == CentralRule(rules[m].lhs[0], v) && rules[m].lhs[0] in order[..i] && rules[m].lhs[0] != v
      {
        if m < |front| {
          assert rules[m] == front[m];
        }
      }
    }
  }

  lemma CentralRulesMeaning(order: seq<Name>, v: Name)
    ensures forall u | u in order && u != v :: CentralRule(u, v) in CentralRules(order, v)
    ensures forall m | 0 <= m < |CentralRules(order, v)| ::
      var rule := CentralRules(order, v)[m];
      && |rule.lhs| == 2 && rule == CentralRule(rule.lhs[0], v) && rule.lhs[0] in order && rule.lhs[0] != v
  {
    CentralUpToMeaning(order, |order|, v);
    assert order[..|order|] == order;
    forall u | u in order && u != v ensures CentralRule(u, v) in CentralRules(order, v) {
      var k :| 0 <= k < |order| && order[k] == u;
    }
  }

  /** After `add_central_variable(v)` the table rewrites `u * v` to `v * u` for
      every other known name `u`, so `v` commutes with all of them. */
  lemma CentralLookup(table: seq<Relation>, order: seq<Name>, v: Name, u: Name)
    requires u in order && u != v
    ensures Lookup(RegisterAll(table, CentralRules(order, v)), [u, v]) == Some(Relation([u, v], [Term(1, [v, u])]))
  {
    var rules := CentralRules(order, v);
    CentralRulesMeaning(order, v);
    var rel := CentralRule(u, v);
    forall m | 0 <= m < |rules| && rules[m].lhs == rel.lhs ensures rules[m] == rel {
      assert rules[m] == CentralRule(rules[m].lhs[0], v);
    }
    RegisterAllLookup(table, rules, rel);
  }

  /** `Relation(VariableWord(u, v), (1, VariableWord(v, u)))` for a registered
      name `u` other than `v`: it raises UnknownVariableName when `v` is not
      registered. */
  method DeclareCentralPair(known: set<Name>, table: RelationTable, u: Name, v: Name) returns (err: Option<Error>)
    requires table.Valid() && u in known && u != v
    modifies table
    ensures table.Valid()
    ensures v in known ==> err.None? && table.rules == Register(old(table.rules), CentralRule(u, v))
    ensures v !in known ==> err == Some(UnknownVariableName) && table.rules == old(table.rules)
  {
    var lhs := NewWord(known, [PStr(u), PVar(v)]);
    if lhs.Failure? {
      assert PieceOk(known, [PStr(u), PVar(v)][0]);
      return Some(lhs.error);
    }
    assert PieceOk(known, [PStr(u), PVar(v)][1]);
    var rhs := NewWord(known, [PVar(v), PStr(u)]);
    assert PieceOk(known, [PVar(v), PStr(u)][0]) && PieceOk(known, [PVar(v), PStr(u)][1]);
    assert lhs.value == [u, v] && rhs.value == [v, u];
    RelationOfPair(known, lhs.value, Num(1), rhs.value);
    var rel := table.Declare(known, AWord(lhs.value), [RhsArg(Num(1), AWord(rhs.value))]);
    assert rel == Success(CentralRule(u, v));
    return None;
  }

  /** The loop of `add_central_variable` over the registered names `order`. */
  method DeclareCentral(known: set<Name>, table: RelationTable, order: seq<Name>, v: Name) returns (err: Option<Error>)
    requires table.Valid() && forall k | 0 <= k < |order| :: order[k] in known
    modifies table
    ensures table.Valid()
    ensures v in known ==> err.None? && table.rules == RegisterAll(old(table.rules), CentralRules(order, v))
    ensures v !in known ==> (err.None? || err == Some(UnknownVariableName)) && table.rules == old(table.rules)
  {
    for i := 0 to |order|
      invariant table.Valid()
      invariant table.rules == RegisterAll(old(table.rules), CentralUpTo(order, i, v))
      invariant v !in known ==> CentralUpTo(order, i, v) == []
    {
      var u := order[i];
      ghost var rules := CentralUpTo(order, i, v);
      if v != u {
        err := DeclareCentralPair(known, table, u, v);
        if err.Some? {
          return;
        }
        RegisterAllSnoc(old(table.rules), rules, CentralRule(u, v));
      } else {
        assert rules + [] == rules;
      }
    }
    err := None;
  }

  /** `add_central_variable(newvar)`: a str is made a Variable (registered when
      new), a Variable is taken as it is, anything else raises TypeError; then
      `u * v = v * u` is declared for every known name `u` other than `v`, in
      registry order, and `Element(v)` is returned. A Variable whose name is not
      registered makes the first declaration raise UnknownVariableName. */
  method AddCentralVariable(reg: Registry, table: RelationTable, newvar: NewVar, fuel: nat) returns (r: Result<Element>)
    requires reg.Valid() && table.Valid()
    modifies reg, table
    ensures reg.Valid() && table.Valid()
    ensures !newvar.NewVarName? ==> reg.order == old(reg.order) && reg.variables == old(reg.variables)
    ensures newvar.NewVarName? ==>
      && reg.order == Appended(old(reg.order), [newvar.s])
      && newvar.s in reg.variables
      && forall n | n in old(reg.variables) :: n in reg.variables && reg.variables[n] == old(reg.variables)[n]
    ensures newvar.NewVarOther? ==> r == Failure(TypeError) && table.rules == old(table.rules)
    ensures !newvar.NewVarOther? && VarName(newvar) !in reg.variables ==>
      r == Failure(UnknownVariableName) && table.rules == old(table.rules)
    ensures !newvar.NewVarOther? && VarName(newvar) in reg.variables ==>
      && table.rules == RegisterAll(old(table.rules), CentralRules(reg.order, VarName(newvar)))
      && (r.Success? ==>
        fresh(r.value) && r.value.Valid() && Construct(reg.Known(), table.rules, OVariable(VarName(newvar)), fuel) == Success(r.value.terms))
      && (r.Failure? ==> Construct(reg.Known(), table.rules, OVariable(VarName(newvar)), fuel) == Failure(r.error))
  {
    if newvar.NewVarOther? {
      return Failure(TypeError);
    }
    var v := VarName(newvar);
    if newvar.NewVarName? {
      var created := NewVariable(reg, v, 0, false);
      assert [v][..0] == [];
      assert Appended(old(reg.order), [v]) == Appended(old(reg.order), []) + (if v in old(reg.order) then [] else [v]);
    }
    var err := DeclareCentral(reg.Known(), table, reg.order, v);
    if err.Some? {
      return Failure(err.value);
    }
    r := NewElement(reg.Known(), table.rules, OVariable(v), fuel);
  }
}
