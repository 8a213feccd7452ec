/** `finite_set_exponential(base, exponent)` of tools.py: every function from the
    entries of `exponent` to the entries of `base`, each as a dict, in the order
    the recursive generator yields them. */
module Tools {
  import opened Wrappers

  /** `b ** e` for a nonnegative integer exponent. */
  function Pow(b: int, e: nat): int {
    if e == 0 then 1 else b * Pow(b, e - 1)
  }

  /** `func[key] = val` for every dict `func` of `funcs`, in order. */
  function Tag<B, E(==)>(val: B, key: E, funcs: seq<map<E, B>>): (r: seq<map<E, B>>)
    ensures |r| == |funcs|
    ensures forall k | 0 <= k < |funcs| :: r[k] == funcs[k][key := val]
  {
    seq(|funcs|, k requires 0 <= k < |funcs| => funcs[k][key := val])
  }

  /** The outer loop `for val in vals`, each pass running the inner loop over
      `funcs`. */
  function Extend<B, E(==)>(vals: seq<B>, key: E, funcs: seq<map<E, B>>): seq<map<E, B>> {
    if vals == [] then [] else Tag(vals[0], key, funcs) + Extend(vals[1..], key, funcs)
  }

  /** What the generator yields once `base` is known not to be empty. */
  function Exponential<B, E(==)>(base: seq<B>, exponent: seq<E>): seq<map<E, B>>
    decreases |exponent|
  {
    if exponent == [] then [map[]]
    else Extend(base, exponent[0], Exponential(base, exponent[1..]))
  }

  /** `finite_set_exponential(base, exponent)`: ValueError for an empty base,
      otherwise the dicts in the order they are yielded. */
  function FiniteSetExponential<B, E(==)>(base: seq<B>, exponent: seq<E>): Result<seq<map<E, B>>> {
    if |base| == 0 then Failure(ValueError) else Success(Exponential(base, exponent))
  }

  /** A function from the entries of `exponent` into the entries of `base`. */
  ghost predicate IsFunction<B, E>(m: map<E, B>, base: seq<B>, exponent: seq<E>) {
    && (forall x | x in m :: x in exponent && m[x] in base)
    && (forall k | 0 <= k < |exponent| :: exponent[k] in m)
  }

  /** The dict at position `i * |funcs| + k` is the `k`-th one of the inner loop
      with `key` sent to the `i`-th value. */
  lemma {:induction false} ExtendAt<B, E>(vals: seq<B>, key: E, funcs: seq<map<E, B>>, i: nat, k: nat)
    requires i < |vals| && k < |funcs|
    ensures i * |funcs| + k < |Extend(vals, key, funcs)|
    ensures Extend(vals, key, funcs)[i * |funcs| + k] == funcs[k][key := vals[i]]
    decreases |vals|
  {
    var n := |funcs|;
    var front, back := Tag(vals[0], key, funcs), Extend(vals[1..], key, funcs);
    assert Extend(vals, key, funcs) == front + back;
    if i == 0 {
      assert (front + back)[k] == front[k];
    } else {
      var j := (i - 1) * n + k;
      ExtendAt(vals[1..], key, funcs, i - 1, k);
      assert i * n + k == n + j;
      assert (front + back)[n + j] == back[j];
    }
  }

  lemma {:induction false} ExtendLength<B, E>(vals: seq<B>, key: E, funcs: seq<map<E, B>>)
    ensures |Extend(vals, key, funcs)| == |vals| * |funcs|
    decreases |vals|
  {
    if vals != [] {
      ExtendLength(vals[1..], key, funcs);
      assert |vals| * |funcs| == |funcs| + (|vals| - 1) * |funcs|;
    }
  }

  /** The generator yields `|base| ** |exponent|` dicts (the `num_funcs` of
      `relation_finder`). */
  lemma {:induction false} ExponentialCount<B, E>(base: seq<B>, exponent: seq<E>)
    ensures |Exponential(base, exponent)| == Pow(|base|, |exponent|)
    decreases |exponent|
  {
    if exponent != [] {
      ExponentialCount(base, exponent[1..]);
      ExtendLength(base, exponent[0], Exponential(base, exponent[1..]));
    }
  }

  /** Order: the value of `exponent[0]` varies slowest, following `base`; for each
      of them the dicts for the rest of `exponent` come in their own order. */
  lemma ExponentialOrder<B, E>(base: seq<B>, exponent: seq<E>, i: nat, k: nat)
    requires exponent != [] && i < |base| && k < |Exponential(base, exponent[1..])|
    ensures var rest := Exponential(base, exponent[1..]);
      && i * |rest| + k < |Exponential(base, exponent)|
      && Exponential(base, exponent)[i * |rest| + k] == rest[k][exponent[0] := base[i]]
  {
    ExtendAt(base, exponent[0], Exponential(base, exponent[1..]), i, k);
  }

  /** Every position of `Extend` is some pass of the outer loop and some pass of
      the inner one. */
  lemma ExtendSplit<B, E>(vals: seq<B>, key: E, funcs: seq<map<E, B>>, p: nat) returns (i: nat, k: nat)
    requires p < |Extend(vals, key, funcs)|
    ensures i < |vals| && k < |funcs| && p == i * |funcs| + k
  {
    ExtendLength(vals, key, funcs);
    var n := |funcs|;
    PositiveFactor(|vals|, n);
    DivBelow(p, n, |vals|);
    i, k := p / n, p % n;
  }

  lemma PositiveFactor(a: nat, b: nat)
    requires a * b > 0
    ensures b > 0
  {
  }

  lemma DivBelow(p: nat, n: nat, v: nat)
    requires n > 0 && p < v * n
    ensures p / n < v && p % n < n && p == (p / n) * n + p % n
  {
  }

  /** Every yielded dict is a function from the entries of `exponent` into the
      entries of `base`. */
  lemma {:induction false} ExponentialFunctions<B, E>(base: seq<B>, exponent: seq<E>)
    ensures forall p | 0 <= p < |Exponential(base, exponent)| :: IsFunction(Exponential(base, exponent)[p], base, exponent)
    decreases |exponent|
  {
    if exponent != [] {
      var rest := Exponential(base, exponent[1..]);
      ExponentialFunctions(base, exponent[1..]);
      forall p | 0 <= p < |Exponential(base, exponent)| ensures IsFunction(Exponential(base, exponent)[p], base, exponent) {
        var i, k := ExtendSplit(base, exponent[0], rest, p);
        ExtendAt(base, exponent[0], rest, i, k);
        assert IsFunction(rest[k], base, exponent[1..]);
        var m := rest[k][exponent[0] := base[i]];
        forall x | x in m ensures x in exponent && m[x] in base {
          assert x in exponent <==> x == exponent[0] || x in exponent[1..];
        }
        forall j | 0 <= j < |exponent| ensures exponent[j] in m {
          if j > 0 {
            assert exponent[j] == exponent[1..][j - 1];
          }
        }
      }
    }
  }

  /** Every function from the entries of `exponent` into the entries of `base` is
      yielded. */
  lemma {:induction false} ExponentialComplete<B, E>(base: seq<B>, exponent: seq<E>, m: map<E, B>)
    requires IsFunction(m, base, exponent)
    ensures m in Exponential(base, exponent)
    decreases |exponent|
  {
    if exponent == [] {
      assert m.Keys == {};
      assert Exponential(base, exponent) == [map[]];
      assert Exponential(base, exponent)[0] == m;
    } else {
      var key := exponent[0];
      var rest := Exponential(base, exponent[1..]);
      var m' := RestrictTail(m, base, exponent);
      ExponentialComplete(base, exponent[1..], m');
      var k :| 0 <= k < |rest| && rest[k] == m';
      var i :| 0 <= i < |base| && base[i] == m[key];
      ExtendAt(base, key, rest, i, k);
      var all := Exponential(base, exponent);
      assert all == Extend(base, key, rest);
      var at := i * |rest| + k;
      assert 0 <= at < |all| && all[at] == m;
    }
  }

  /** A function on `exponent` is a function on its tail with the first entry set. */
  lemma RestrictTail<B, E>(m: map<E, B>, base: seq<B>, exponent: seq<E>) returns (m': map<E, B>)
    requires IsFunction(m, base, exponent) && exponent != []
    ensures IsFunction(m', base, exponent[1..])
    ensures exponent[0] in m && m == m'[exponent[0] := m[exponent[0]]]
  {
    m' := map x | x in m && x in exponent[1..] :: m[x];
    forall k | 0 <= k < |exponent[1..]| ensures exponent[1..][k] in m' {
      assert exponent[1..][k] == exponent[k + 1];
    }
    assert exponent[0] in m;
    var n := m'[exponent[0] := m[exponent[0]]];
    forall x | x in m ensures x in n && n[x] == m[x] {
      var j :| 0 <= j < |exponent| && exponent[j] == x;
      if j > 0 {
        assert exponent[1..][j - 1] == x;
      }
    }
    assert m.Keys == n.Keys;
  }

  predicate Distinct<T(==)>(s: seq<T>) {
    forall p, q | 0 <= p < q < |s| :: s[p] != s[q]
  }

  /** Two dicts that differ and lack `key` still differ once `key` is set. */
  lemma UpdateKeepsApart<B, E>(m1: map<E, B>, m2: map<E, B>, key: E, v: B)
    requires m1 != m2 && m1.Keys == m2.Keys && key !in m1
    ensures m1[key := v] != m2[key := v]
  {
    var x :| x in m1 && m1[x] != m2[x];
    assert m1[key := v][x] == m1[x];
  }

  /** Two functions on the same entries have the same keys. */
  lemma FunctionKeys<B, E>(m1: map<E, B>, m2: map<E, B>, base: seq<B>, exponent: seq<E>)
    requires IsFunction(m1, base, exponent) && IsFunction(m2, base, exponent)
    ensures m1.Keys == m2.Keys
  {
    forall x | x in m1 ensures x in m2 {
      var j :| 0 <= j < |exponent| && exponent[j] == x;
    }
    forall x | x in m2 ensures x in m1 {
      var j :| 0 <= j < |exponent| && exponent[j] == x;
    }
  }

  /** Two passes of the loops over distinct values, extending distinct dicts on
      the same keys with a new key, yield different dicts. */
  lemma ExtendApart<B, E>(vals: seq<B>, key: E, funcs: seq<map<E, B>>, p: nat, q: nat)
    requires Distinct(vals) && Distinct(funcs)
    requires forall k | 0 <= k < |funcs| :: key !in funcs[k]
    requires forall k1, k2 | 0 <= k1 < |funcs| && 0 <= k2 < |funcs| :: funcs[k1].Keys == funcs[k2].Keys
    requires p < q < |Extend(vals, key, funcs)|
    ensures Extend(vals, key, funcs)[p] != Extend(vals, key, funcs)[q]
  {
    var all := Extend(vals, key, funcs);
    var i1, k1 := ExtendSplit(vals, key, funcs, p);
    var i2, k2 := ExtendSplit(vals, key, funcs, q);
    ExtendAt(vals, key, funcs, i1, k1);
    ExtendAt(vals, key, funcs, i2, k2);
    if i1 != i2 {
      assert all[p][key] == vals[i1] && all[q][key] == vals[i2];
    } else {
      assert k1 < k2;
      UpdateKeepsApart(funcs[k1], funcs[k2], key, vals[i1]);
    }
  }

  lemma ExtendDistinct<B, E>(vals: seq<B>, key: E, funcs: seq<map<E, B>>)
    requires Distinct(vals) && Distinct(funcs)
    requires forall k | 0 <= k < |funcs| :: key !in funcs[k]
    requires forall k1, k2 | 0 <= k1 < |funcs| && 0 <= k2 < |funcs| :: funcs[k1].Keys == funcs[k2].Keys
    ensures Distinct(Extend(vals, key, funcs))
  {
    var all := Extend(vals, key, funcs);
    forall p, q | 0 <= p < q < |all| ensures all[p] != all[q] {
      ExtendApart(vals, key, funcs, p, q);
    }
  }

  /** Under the assumptions of the docstring (the entries of `base` are pairwise
      distinct and so are those of `exponent`) no dict is yielded twice. */
  lemma {:induction false} ExponentialDistinct<B, E>(base: seq<B>, exponent: seq<E>)
    requires Distinct(base) && Distinct(exponent)
    ensures Distinct(Exponential(base, exponent))
    decreases |exponent|
  {
    if exponent != [] {
      var key := exponent[0];
      var tail := exponent[1..];
      var rest := Exponential(base, tail);
      assert Distinct(tail) by {
        forall p, q | 0 <= p < q < |tail| ensures tail[p] != tail[q] {
          assert tail[p] == exponent[p + 1] && tail[q] == exponent[q + 1];
        }
      }
      ExponentialDistinct(base, tail);
      ExponentialFunctions(base, tail);
      assert key !in tail by {
        forall j | 0 <= j < |tail| ensures tail[j] != key {
          assert tail[j] == exponent[j + 1];
        }
      }
      forall k1, k2 | 0 <= k1 < |rest| && 0 <= k2 < |rest| ensures rest[k1].Keys == rest[k2].Keys {
        FunctionKeys(rest[k1], rest[k2], base, tail);
      }
      ExtendDistinct(base, key, rest);
    }
  }

  /** The promises of the docstring, for `finite_set_exponential` itself: an empty
      base raises ValueError (even for an empty exponent); otherwise exactly the
      `|base| ** |exponent|` functions from `exponent` to `base` are yielded, an
      empty exponent giving the one empty dict. */
  lemma FiniteSetExponentialMeaning<B, E>(base: seq<B>, exponent: seq<E>)
    ensures FiniteSetExponential(base, exponent).Failure? <==> |base| == 0
    ensures FiniteSetExponential(base, exponent).Failure? ==> FiniteSetExponential(base, exponent).error == ValueError
    ensures |base| > 0 && exponent == [] ==> FiniteSetExponential(base, exponent) == Success([map[]])
    ensures |base| > 0 ==>
      var r := FiniteSetExponential(base, exponent).value;
      && |r| == Pow(|base|, |exponent|)
      && (forall p | 0 <= p < |r| :: IsFunction(r[p], base, exponent))
      && (forall m | IsFunction(m, base, exponent) :: m in r)
  {
    if |base| > 0 {
      ExponentialCount(base, exponent);
      ExponentialFunctions(base, exponent);
      forall m | IsFunction(m, base, exponent) ensures m in Exponential(base, exponent) {
        ExponentialComplete(base, exponent, m);
      }
    }
  }
}
