/** The folding decorators of frosting.py: `right_associative` and
    `left_associative` turn a binary function into one of any positive number of
    arguments; `compose` and `prod` are binary functions made n-ary by
    `left_associative`. */
module Frosting {
  import opened Wrappers

  /** `ra_func(x, *args)`: `x` alone, or `func(x, ra_func(*args))`. */
  function RaFunc<T>(func: (T, T) -> T, x: T, args: seq<T>): T
    decreases |args|
  {
    if args == [] then x else func(x, RaFunc(func, args[0], args[1..]))
  }

  /** `la_func(x, *args)`: `x` alone, or `func(la_func(x, *args[:-1]), args[-1])`. */
  function LaFunc<T>(func: (T, T) -> T, x: T, args: seq<T>): T
    decreases |args|
  {
    if args == [] then x else func(LaFunc(func, x, args[..|args| - 1]), args[|args| - 1])
  }

  /** `right_associative(func)` called with the arguments `xs`: a call without
      arguments misses the positional `x` and raises TypeError. */
  function RightAssociative<T>(func: (T, T) -> T, xs: seq<T>): Result<T> {
    if xs == [] then Failure(TypeError) else Success(RaFunc(func, xs[0], xs[1..]))
  }

  /** `left_associative(func)` called with the arguments `xs`. */
  function LeftAssociative<T>(func: (T, T) -> T, xs: seq<T>): Result<T> {
    if xs == [] then Failure(TypeError) else Success(LaFunc(func, xs[0], xs[1..]))
  }

  /** The examples of the docstrings: one argument is returned as it is, and
      three arguments group to the right, respectively to the left. */
  lemma AssociativeExamples<T>(func: (T, T) -> T, x: T, y: T, z: T)
    ensures RightAssociative(func, [x]) == Success(x)
    ensures LeftAssociative(func, [x]) == Success(x)
    ensures RightAssociative(func, [x, y, z]) == Success(func(x, func(y, z)))
    ensures LeftAssociative(func, [x, y, z]) == Success(func(func(x, y), z))
  {
    assert [x, y, z][1..] == [y, z] && [y, z][1..] == [z] && [z][1..] == [];
    assert RaFunc(func, y, [z]) == func(y, z);
    assert [y, z][..1] == [y] && [y][..0] == [];
    assert LaFunc(func, x, [y]) == func(x, y);
  }

  /** The grouping matters: for subtraction the two decorators differ. */
  lemma GroupingMatters()
    ensures RightAssociative((a: int, b: int) => a - b, [1, 1, 1]) == Success(1)
    ensures LeftAssociative((a: int, b: int) => a - b, [1, 1, 1]) == Success(-1)
  {
    AssociativeExamples((a: int, b: int) => a - b, 1, 1, 1);
  }

  /** `func` groups either way to the same value. */
  ghost predicate Associative<T(!new)>(func: (T, T) -> T) {
    forall a, b, c :: func(func(a, b), c) == func(a, func(b, c))
  }

  /** For an associative `func` the left fold can take its first argument off
      the front. */
  lemma {:induction false} LaFuncCons<T(!new)>(func: (T, T) -> T, x: T, y: T, args: seq<T>)
    requires Associative(func)
    ensures LaFunc(func, x, [y] + args) == func(x, LaFunc(func, y, args))
    decreases |args|
  {
    if args == [] {
      assert [y] + args == [y];
      assert [y][..0] == [];
    } else {
      var init, last := args[..|args| - 1], args[|args| - 1];
      assert ([y] + args)[..|[y] + args| - 1] == [y] + init;
      LaFuncCons(func, x, y, init);
      assert func(func(x, LaFunc(func, y, init)), last) == func(x, func(LaFunc(func, y, init), last));
    }
  }

  /** For an associative `func` both decorators give the same function. */
  lemma {:induction false} AssociativeAgree<T(!new)>(func: (T, T) -> T, xs: seq<T>)
    requires Associative(func)
    ensures RightAssociative(func, xs) == LeftAssociative(func, xs)
    decreases |xs|
  {
    if |xs| >= 2 {
      AssociativeAgree(func, xs[1..]);
      assert xs[1..] == [xs[1]] + xs[2..];
      LaFuncCons(func, xs[0], xs[1], xs[2..]);
    }
  }

  // ---------------------------------------------------------------------------
  // compose
  // ---------------------------------------------------------------------------

  /** The binary `compose(func1, func2)`: `lambda x: func1(func2(x))`. */
  function Compose2<T>(func1: T -> T, func2: T -> T): T -> T {
    x => func1(func2(x))
  }

  /** `compose(*funcs)`. */
  function Compose<T>(funcs: seq<T -> T>): Result<T -> T> {
    LeftAssociative(Compose2, funcs)
  }

  /** Applying `funcs` from the last to the first. */
  function ApplyAll<T>(funcs: seq<T -> T>, x: T): T
    decreases |funcs|
  {
    if funcs == [] then x else funcs[0](ApplyAll(funcs[1..], x))
  }

  lemma {:induction false} ApplyAllSnoc<T>(funcs: seq<T -> T>, g: T -> T, x: T)
    ensures ApplyAll(funcs + [g], x) == ApplyAll(funcs, g(x))
    decreases |funcs|
  {
    if funcs == [] {
      assert funcs + [g] == [g];
    } else {
      assert (funcs + [g])[1..] == funcs[1..] + [g];
      ApplyAllSnoc(funcs[1..], g, x);
    }
  }

  lemma {:induction false} ComposeFold<T>(f: T -> T, gs: seq<T -> T>, x: T)
    ensures LaFunc(Compose2, f, gs)(x) == ApplyAll([f] + gs, x)
    decreases |gs|
  {
    if gs == [] {
      assert [f] + gs == [f];
    } else {
      var init, last := gs[..|gs| - 1], gs[|gs| - 1];
      var g := LaFunc(Compose2, f, init);
      calc {
        LaFunc(Compose2, f, gs)(x);
        Compose2(g, last)(x);
        g(last(x));
        { ComposeFold(f, init, last(x)); }
        ApplyAll([f] + init, last(x));
        { ApplyAllSnoc([f] + init, last, x); }
        ApplyAll(([f] + init) + [last], x);
        { assert ([f] + init) + [last] == [f] + gs; }
        ApplyAll([f] + gs, x);
      }
    }
  }

  /** `compose(f1, ..., fn)(x) == f1(f2(...fn(x)))`, and calling `compose()`
      raises TypeError. */
  lemma ComposeApply<T>(funcs: seq<T -> T>, x: T)
    ensures Compose(funcs).Failure? <==> funcs == []
    ensures funcs != [] ==> Compose(funcs).value(x) == ApplyAll(funcs, x)
  {
    if funcs != [] {
      ComposeFold(funcs[0], funcs[1..], x);
      assert [funcs[0]] + funcs[1..] == funcs;
    }
  }

  // ---------------------------------------------------------------------------
  // prod
  // ---------------------------------------------------------------------------

  /** `prod(*xs)` over Numbers: `x * y` folded to the left. */
  function Prod(xs: seq<int>): Result<int> {
    LeftAssociative((a: int, b: int) => a * b, xs)
  }

  /** The product of the numbers `xs`. */
  function ProductOf(xs: seq<int>): int
    decreases |xs|
  {
    if xs == [] then 1 else xs[0] * ProductOf(xs[1..])
  }

  /** `prod(x, y, z) == (x*y)*z`, which is the product of the arguments. */
  lemma ProdMeaning(xs: seq<int>)
    ensures Prod(xs).Failure? <==> xs == []
    ensures |xs| == 3 ==> Prod(xs) == Success((xs[0] * xs[1]) * xs[2])
    ensures xs != [] ==> Prod(xs) == Success(ProductOf(xs))
  {
    var mul := (a: int, b: int) => a * b;
    if |xs| == 3 {
      AssociativeExamples(mul, xs[0], xs[1], xs[2]);
      assert xs == [xs[0], xs[1], xs[2]];
    }
    if xs != [] {
      assert Associative(mul);
      AssociativeAgree(mul, xs);
      RaFuncProduct(xs[0], xs[1..]);
    }
  }

  lemma {:induction false} RaFuncProduct(x: int, args: seq<int>)
    ensures RaFunc((a: int, b: int) => a * b, x, args) == ProductOf([x] + args)
    decreases |args|
  {
    if args != [] {
      RaFuncProduct(args[0], args[1..]);
      assert ([x] + args)[1..] == args == [args[0]] + args[1..];
    } else {
      assert ([x] + args)[1..] == [];
    }
  }
}
