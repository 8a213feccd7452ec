/** Words in registered variable names (`VariableWord` in variable.py).

    A word is its list of names `_w`. `VariableWord.__eq__` and `__hash__` look at
    nothing but that list, so the model treats a word as the value `seq<Name>`:
    two words are equal, and hash alike, exactly when their name sequences are. */
module Words {
  import opened Wrappers

  type Name = string
  type Word = seq<Name>

  // ---------------------------------------------------------------------------
  // Building a word: VariableWord.__init__
  // ---------------------------------------------------------------------------

  /** One positional argument of `VariableWord(*word)`. */
  datatype Piece =
    | PStr(name: Name)     // a str
    | PVar(name: Name)     // a Variable, represented by its name
    | PWord(w: Word)       // a VariableWord
    | POther               // anything else

  predicate PieceOk(known: set<Name>, p: Piece) {
    (p.PStr? || p.PVar?) && p.name in known
  }

  /** The exception a rejected piece raises. A nested VariableWord is refused even
      when it has length 1: the constructor then returns a value from `__init__`,
      which Python turns into a TypeError. */
  function PieceError(p: Piece): Error {
    if p.PStr? || p.PVar? then UnknownVariableName else TypeError
  }

  /** Piece `i` is the first one the constructor rejects. */
  predicate FirstBad(known: set<Name>, pieces: seq<Piece>, i: int) {
    && 0 <= i < |pieces|
    && !PieceOk(known, pieces[i])
    && forall k | 0 <= k < i :: PieceOk(known, pieces[k])
  }

  predicate AllKnown(known: set<Name>, w: Word) {
    forall i | 0 <= i < |w| :: w[i] in known
  }

  /** A concatenation holds only registered names exactly when both parts do. */
  lemma AllKnownConcat(known: set<Name>, a: Word, b: Word)
    ensures AllKnown(known, a + b) <==> AllKnown(known, a) && AllKnown(known, b)
  {
    if AllKnown(known, a + b) {
      forall i | 0 <= i < |a| ensures a[i] in known {
        assert (a + b)[i] == a[i];
      }
      forall i | 0 <= i < |b| ensures b[i] in known {
        assert (a + b)[|a| + i] == b[i];
      }
    }
    if AllKnown(known, a) && AllKnown(known, b) {
      forall i | 0 <= i < |a + b| ensures (a + b)[i] in known {
        if i >= |a| {
          assert (a + b)[i] == b[i - |a|];
        }
      }
    }
  }

  /** `VariableWord(*pieces)` against the registry keys `known`: the names in order,
      or the exception raised by the first rejected piece. */
  method NewWord(known: set<Name>, pieces: seq<Piece>) returns (r: Result<Word>)
    ensures r.Success? <==> forall i | 0 <= i < |pieces| :: PieceOk(known, pieces[i])
    ensures r.Success? ==>
      |r.value| == |pieces| &&
      forall i | 0 <= i < |pieces| :: PieceOk(known, pieces[i]) && r.value[i] == pieces[i].name
    ensures r.Failure? ==>
      exists i :: FirstBad(known, pieces, i) && r.error == PieceError(pieces[i])
  {
    var w: Word := [];
    for i := 0 to |pieces|
      invariant |w| == i
      invariant forall k | 0 <= k < i :: PieceOk(known, pieces[k]) && w[k] == pieces[k].name
    {
      var p := pieces[i];
      if !(p.PStr? || p.PVar?) {
        assert FirstBad(known, pieces, i);
        return Failure(TypeError);
      }
      if p.name !in known {
        assert FirstBad(known, pieces, i);
        return Failure(UnknownVariableName);
      }
      w := w + [p.name];
    }
    return Success(w);
  }

  /** `VariableWord(*s)` for a list of name strings: re-validates every name. */
  method Revalidate(known: set<Name>, s: Word) returns (r: Result<Word>)
    ensures r == if AllKnown(known, s) then Success(s) else Failure(UnknownVariableName)
  {
    var pieces := seq(|s|, i requires 0 <= i < |s| => PStr(s[i]));
    r := NewWord(known, pieces);
    if r.Success? {
      assert r.value == s;
    } else {
      var i :| FirstBad(known, pieces, i) && r.error == PieceError(pieces[i]);
      assert !(s[i] in known);
    }
  }

  // ---------------------------------------------------------------------------
  // Concatenation: VariableWord.__mul__ and __rmul__
  // ---------------------------------------------------------------------------

  /** The other operand of a word product. */
  datatype Factor = FWord(w: Word) | FVar(name: Name) | FOther

  /** `a * other`: the concatenation `a._w + other._w`, with a Variable contributing
      its name on the right; the result is validated like any new word. */
  method Mul(known: set<Name>, a: Word, other: Factor) returns (r: Result<Word>)
    ensures other.FWord? ==>
      r == if AllKnown(known, a + other.w) then Success(a + other.w) else Failure(UnknownVariableName)
    ensures other.FVar? ==>
      r == if AllKnown(known, a + [other.name]) then Success(a + [other.name]) else Failure(UnknownVariableName)
    ensures other.FOther? ==> r == Failure(TypeError)
  {
    match other
    case FWord(w) => r := Revalidate(known, a + w);
    case FVar(n) => r := Revalidate(known, a + [n]);
    case FOther => r := Failure(TypeError);
  }

  /** `other * a` through `__rmul__`: the other operand's names come first. */
  method RMul(known: set<Name>, a: Word, other: Factor) returns (r: Result<Word>)
    ensures other.FWord? ==>
      r == if AllKnown(known, other.w + a) then Success(other.w + a) else Failure(UnknownVariableName)
    ensures other.FVar? ==>
      r == if AllKnown(known, [other.name] + a) then Success([other.name] + a) else Failure(UnknownVariableName)
    ensures other.FOther? ==> r == Failure(TypeError)
  {
    match other
    case FWord(w) => r := Revalidate(known, w + a);
    case FVar(n) => r := Revalidate(known, [n] + a);
    case FOther => r := Failure(TypeError);
  }

  // ---------------------------------------------------------------------------
  // Leftmost subword search: VariableWord.split_on_sub
  // ---------------------------------------------------------------------------

  predicate OccursAt(w: Word, sub: Word, i: nat) {
    i + |sub| <= |w| && w[i..i + |sub|] == sub
  }

  /** The first start position at or after `i` where `sub` occurs in `w`. */
  function FindFrom(w: Word, sub: Word, i: nat): Option<nat>
    decreases |w| - i
  {
    if i + |sub| > |w| then None
    else if OccursAt(w, sub, i) then Some(i)
    else FindFrom(w, sub, i + 1)
  }

  /** The position found is an occurrence at or after `i` with none before it,
      and nothing is found exactly when there is no occurrence from `i` on. */
  lemma {:induction false} FindFromMeaning(w: Word, sub: Word, i: nat)
    ensures FindFrom(w, sub, i).Some? ==>
      var r := FindFrom(w, sub, i).value;
      i <= r && OccursAt(w, sub, r) && forall k | i <= k < r :: !OccursAt(w, sub, k)
    ensures FindFrom(w, sub, i).None? ==> forall k | i <= k :: !OccursAt(w, sub, k)
    decreases |w| - i
  {
    if i + |sub| <= |w| && !OccursAt(w, sub, i) {
      FindFromMeaning(w, sub, i + 1);
    }
  }

  /** `(before, during, after)`, or `None` for the source's `(None, None, None)`. */
  datatype Split = Split(before: Word, during: Word, after: Word)

  function SplitOn(w: Word, sub: Word): Option<Split> {
    if |sub| == 0 then Some(Split([], [], w))
    else match FindFrom(w, sub, 0)
      case None => None
      case Some(i) =>
        FindFromMeaning(w, sub, 0);
        Some(Split(w[..i], w[i..i + |sub|], w[i + |sub|..]))
  }

  /** What `split_on_sub` promises: an empty pattern matches at the front; otherwise
      the split is around the leftmost occurrence, and there is none exactly when the
      pattern occurs nowhere. */
  lemma SplitOnMeaning(w: Word, sub: Word)
    ensures |sub| == 0 ==> SplitOn(w, sub) == Some(Split([], [], w))
    ensures SplitOn(w, sub).None? <==> |sub| > 0 && forall i :: !OccursAt(w, sub, i)
    ensures SplitOn(w, sub).Some? ==>
      var s := SplitOn(w, sub).value;
      && s.before + s.during + s.after == w
      && s.during == sub
      && OccursAt(w, sub, |s.before|)
      && forall k | 0 <= k < |s.before| :: !OccursAt(w, sub, k)
  {
    if |sub| > 0 {
      FindFromMeaning(w, sub, 0);
      match FindFrom(w, sub, 0)
      case None =>
      case Some(i) =>
        assert w[..i] + w[i..i + |sub|] + w[i + |sub|..] == w;
    }
  }

  /** The search loop of `split_on_sub`, with its early return. */
  method SplitOnSub(w: Word, sub: Word) returns (r: Option<Split>)
    ensures r == SplitOn(w, sub)
  {
    if |sub| == 0 {
      return Some(Split([], [], w));
    }
    var i := 0;
    while i + |sub| <= |w|
      invariant 0 <= i
      invariant FindFrom(w, sub, 0) == FindFrom(w, sub, i)
      decreases |w| - i
    {
      if sub[0] == w[i] && sub == w[i..i + |sub|] {
        return Some(Split(w[..i], w[i..i + |sub|], w[i + |sub|..]));
      }
      i := i + 1;
    }
    return None;
  }

  /** The simplifier's `if during:` test: a nonempty match was found. */
  predicate Fires(w: Word, lhs: Word) {
    match SplitOn(w, lhs)
    case Some(s) => |s.during| > 0
    case None => false
  }

  /** A left-hand side fires in a word exactly when it is nonempty and occurs in it;
      in particular an empty left-hand side never fires. */
  lemma FiresIff(w: Word, lhs: Word)
    ensures Fires(w, lhs) <==> |lhs| > 0 && exists i :: OccursAt(w, lhs, i)
  {
    SplitOnMeaning(w, lhs);
  }

  // ---------------------------------------------------------------------------
  // Renaming: VariableWord.transform
  // ---------------------------------------------------------------------------

  /** What one position becomes under `transform(from, to, swap)`. */
  function Rename(n: Name, from: Name, to: Name, swap: bool): Name {
    if n == from then to else if n == to && swap then from else n
  }

  /** The word after a renaming pass: every position renamed, length unchanged. */
  function RenameWord(w: Word, from: Name, to: Name, swap: bool): (r: Word)
    ensures |r| == |w|
    ensures forall i | 0 <= i < |w| :: r[i] == Rename(w[i], from, to, swap)
  {
    if w == [] then [] else RenameWord(w[..|w| - 1], from, to, swap) + [Rename(w[|w| - 1], from, to, swap)]
  }

  /** The in-place pass of `transform` over the list `_w`: rewrites each position
      and returns the number of forward changes and of reverse (swap) changes. */
  method TransformInPlace(a: array<Name>, from: Name, to: Name, swap: bool)
      returns (count: nat, countRev: nat)
    modifies a
    ensures a[..] == RenameWord(old(a[..]), from, to, swap)
    ensures count == multiset(old(a[..]))[from]
    ensures countRev == if swap && from != to then multiset(old(a[..]))[to] else 0
  {
    ghost var w := a[..];
    count, countRev := 0, 0;
    for i := 0 to a.Length
      invariant Passed(a[..], w, i, count, countRev, from, to, swap)
    {
      count, countRev := RenameAt(a, i, from, to, swap, w, count, countRev);
    }
    PassedAll(a[..], w, count, countRev, from, to, swap);
  }

  /** The state of the pass after `i` positions of the word `w`: those are renamed,
      the rest untouched, and the counts are those of the first `i` names. */
  ghost predicate Passed(s: seq<Name>, w: Word, i: nat, count: nat, countRev: nat, from: Name, to: Name, swap: bool) {
    && |s| == |w| && i <= |w|
    && (forall k | 0 <= k < i :: s[k] == Rename(w[k], from, to, swap))
    && (forall k | i <= k < |w| :: s[k] == w[k])
    && count == Occurrences(w[..i], from)
    && countRev == (if swap && from != to then Occurrences(w[..i], to) else 0)
  }

  /** One step of the pass: position `i` is renamed and counted. */
  method RenameAt(a: array<Name>, i: nat, from: Name, to: Name, swap: bool, ghost w: Word, count: nat, countRev: nat)
      returns (count': nat, countRev': nat)
    requires i < a.Length && Passed(a[..], w, i, count, countRev, from, to, swap)
    modifies a
    ensures Passed(a[..], w, i + 1, count', countRev', from, to, swap)
  {
    assert w[..i + 1][..i] == w[..i];
    count', countRev' := count, countRev;
    if a[i] == from {
      a[i] := to;
      count' := count + 1;
    } else if a[i] == to && swap {
      a[i] := from;
      countRev' := countRev + 1;
    }
  }

  /** At the end of the pass the word is renamed and the counts are those of the
      whole word. */
  lemma PassedAll(s: seq<Name>, w: Word, count: nat, countRev: nat, from: Name, to: Name, swap: bool)
    requires Passed(s, w, |w|, count, countRev, from, to, swap)
    ensures s == RenameWord(w, from, to, swap)
    ensures count == multiset(w)[from]
    ensures countRev == if swap && from != to then multiset(w)[to] else 0
  {
    assert w[..|w|] == w;
    OccurrencesCount(w, from);
    OccurrencesCount(w, to);
  }

  /** The number of positions of `w` holding `n`, counted from the front. */
  function Occurrences(w: Word, n: Name): nat {
    if w == [] then 0 else Occurrences(w[..|w| - 1], n) + (if w[|w| - 1] == n then 1 else 0)
  }

  lemma {:induction false} OccurrencesCount(w: Word, n: Name)
    ensures Occurrences(w, n) == multiset(w)[n]
  {
    if w != [] {
      var p, x := w[..|w| - 1], w[|w| - 1];
      OccurrencesCount(p, n);
      assert w == p + [x];
      SnocCount(p, x, n);
    }
  }

  /** With `swap`, renaming is an involution: applying it twice restores the word. */
  lemma RenameTwiceRestores(w: Word, from: Name, to: Name)
    ensures RenameWord(RenameWord(w, from, to, true), from, to, true) == w
  {
    var r := RenameWord(RenameWord(w, from, to, true), from, to, true);
    assert |r| == |w|;
    forall i | 0 <= i < |w| ensures r[i] == w[i] {
    }
  }

  /** The number of positions of `w` holding `n`, after renaming, as a function of
      the counts before. */
  function RenamedCount(w: Word, from: Name, to: Name, swap: bool, n: Name): nat {
    if n == from then (if swap then multiset(w)[to] else 0)
    else if n == to then (if swap then multiset(w)[from] else multiset(w)[to] + multiset(w)[from])
    else multiset(w)[n]
  }

  /** Occurrence counts after renaming: without `swap` every `from` becomes `to`
      and no `from` is left; with `swap` the two counts are exchanged; every other
      name keeps its count. */
  lemma {:induction false} RenameCounts(w: Word, from: Name, to: Name, swap: bool, n: Name)
    requires from != to
    ensures multiset(RenameWord(w, from, to, swap))[n] == RenamedCount(w, from, to, swap, n)
  {
    if w != [] {
      var p, x := w[..|w| - 1], w[|w| - 1];
      var y := Rename(x, from, to, swap);
      RenameCounts(p, from, to, swap, n);
      assert RenameWord(w, from, to, swap) == RenameWord(p, from, to, swap) + [y];
      SnocCount(RenameWord(p, from, to, swap), y, n);
      RenamedCountSnoc(w, from, to, swap, n);
    }
  }

  /** One more name counts once more for the name it is renamed to. */
  lemma RenamedCountSnoc(w: Word, from: Name, to: Name, swap: bool, n: Name)
    requires from != to && w != []
    ensures RenamedCount(w, from, to, swap, n)
         == RenamedCount(w[..|w| - 1], from, to, swap, n) + (if Rename(w[|w| - 1], from, to, swap) == n then 1 else 0)
  {
    var p, x := w[..|w| - 1], w[|w| - 1];
    assert w == p + [x];
    SnocCount(p, x, n);
    SnocCount(p, x, from);
    SnocCount(p, x, to);
  }

  lemma SnocCount(p: Word, x: Name, n: Name)
    ensures multiset(p + [x])[n] == multiset(p)[n] + (if x == n then 1 else 0)
  {
  }
}
