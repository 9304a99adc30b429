/**
 * The elementary functions behind the node constructors of automatic_diff.py:
 * the inner `f` of `Sin`, `Plus`, `Minus`, `Multiply` and `Divide`. Each loop
 * is a method proved equal to a left fold, and the folds are related to sums
 * and products by lemmas.
 */
module Elementary {
  import opened Results

  /** Which inner `f` a node carries. */
  datatype Func = SinFunc | PlusFunc | MinusFunc | MultiplyFunc | DivideFunc

  /** What evaluating a node can raise. */
  datatype EvalError =
    | NoArguments     // `Divide` applied to an empty argument list
    | ZeroDivision    // a later argument of `Divide` is zero (Python's float division raises)
    | MissingArgument // `Sin`'s `args[0]` on an empty argument list

  /** `0 + a1 + ... + an`, added left to right. */
  function Sum(s: seq<real>): real
  {
    if |s| == 0 then 0.0 else Sum(s[..|s| - 1]) + s[|s| - 1]
  }

  /** `0 - a1 - ... - an`, subtracted left to right. */
  function Difference(s: seq<real>): real
  {
    if |s| == 0 then 0.0 else Difference(s[..|s| - 1]) - s[|s| - 1]
  }

  /** `1 * a1 * ... * an`, multiplied left to right; non-zero when no factor is zero. */
  function Product(s: seq<real>): (r: real)
    ensures (forall i :: 0 <= i < |s| ==> s[i] != 0.0) ==> r != 0.0
  {
    if |s| == 0 then 1.0 else Product(s[..|s| - 1]) * s[|s| - 1]
  }

  /** `a1 / a2 / ... / an`, divided left to right; a zero divisor or no argument at all fails. */
  function Quotient(s: seq<real>): Result<real, EvalError>
  {
    if |s| == 0 then Err(NoArguments)
    else if |s| == 1 then Ok(s[0])
    else
      match Quotient(s[..|s| - 1])
      case Err(e) => Err(e)
      case Ok(q) => if s[|s| - 1] == 0.0 then Err(ZeroDivision) else Ok(q / s[|s| - 1])
  }

  /** The value of a node's inner `f` on fully evaluated arguments; `sin` stands for `math.sin`. */
  function Apply(f: Func, vals: seq<real>, sin: real -> real): Result<real, EvalError>
  {
    match f
    case SinFunc => if |vals| == 0 then Err(MissingArgument) else Ok(sin(vals[0]))
    case PlusFunc => Ok(Sum(vals))
    case MinusFunc => Ok(Difference(vals))
    case MultiplyFunc => Ok(Product(vals))
    case DivideFunc => Quotient(vals)
  }

  /** `Plus`'s `f`: `ret = 0.` and `ret += a` for each argument. */
  method PlusLoop(args: seq<real>) returns (r: real)
    ensures r == Sum(args)
  {
    r := 0.0;
    for i := 0 to |args|
      invariant r == Sum(args[..i])
    {
      assert args[..i + 1][..i] == args[..i];
      r := r + args[i];
    }
    assert args[..|args|] == args;
  }

  /** `Minus`'s `f`: `ret = 0.` and `ret -= a` for each argument. */
  method MinusLoop(args: seq<real>) returns (r: real)
    ensures r == Difference(args)
  {
    r := 0.0;
    for i := 0 to |args|
      invariant r == Difference(args[..i])
    {
      assert args[..i + 1][..i] == args[..i];
      r := r - args[i];
    }
    assert args[..|args|] == args;
  }

  /** `Multiply`'s `f`: `ret = 1.` and `ret *= a` for each argument. */
  method MultiplyLoop(args: seq<real>) returns (r: real)
    ensures r == Product(args)
  {
    r := 1.0;
    for i := 0 to |args|
      invariant r == Product(args[..i])
    {
      assert args[..i + 1][..i] == args[..i];
      r := r * args[i];
    }
    assert args[..|args|] == args;
  }

  /**
   * `Divide`'s `f`: raises on no arguments, otherwise `ret = args[0]` and
   * `ret /= a` for each later argument, which raises on a zero divisor.
   */
  method DivideLoop(args: seq<real>) returns (r: Result<real, EvalError>)
    ensures r == Quotient(args)
  {
    if |args| == 0 {
      return Err(NoArguments);
    }
    var ret := args[0];
    assert args[..1] == [args[0]];
    for i := 1 to |args|
      invariant Quotient(args[..i]) == Ok(ret)
    {
      assert args[..i + 1][..i] == args[..i];
      if args[i] == 0.0 {
        QuotientErrorPersists(args, i + 1);
        return Err(ZeroDivision);
      }
      ret := ret / args[i];
    }
    assert args[..|args|] == args;
    r := Ok(ret);
  }

  /** The dispatch `self.func(*args)`, with `math.sin` as the parameter `sin`. */
  method CallFunc(f: Func, vals: seq<real>, sin: real -> real) returns (r: Result<real, EvalError>)
    ensures r == Apply(f, vals, sin)
  {
    match f
    case SinFunc =>
      if |vals| == 0 {
        r := Err(MissingArgument);
      } else {
        r := Ok(sin(vals[0]));
      }
    case PlusFunc =>
      var y := PlusLoop(vals);
      r := Ok(y);
    case MinusFunc =>
      var y := MinusLoop(vals);
      r := Ok(y);
    case MultiplyFunc =>
      var y := MultiplyLoop(vals);
      r := Ok(y);
    case DivideFunc =>
      r := DivideLoop(vals);
  }

  /** Once a prefix of the arguments has failed, the whole division fails the same way. */
  lemma {:induction false} QuotientErrorPersists(s: seq<real>, k: nat)
    requires 1 <= k <= |s| && Quotient(s[..k]).Err?
    ensures Quotient(s) == Quotient(s[..k])
    decreases |s|
  {
    if k < |s| {
      var t := s[..|s| - 1];
      assert t[..k] == s[..k];
      QuotientErrorPersists(t, k);
    } else {
      assert s[..k] == s;
    }
  }

  /** `Minus` computes the negated sum: `0 - a1 - ... - an == -(a1 + ... + an)`. */
  lemma {:induction false} DifferenceIsNegatedSum(s: seq<real>)
    ensures Difference(s) == -Sum(s)
  {
    if |s| > 0 {
      DifferenceIsNegatedSum(s[..|s| - 1]);
    }
  }

  /** `Plus` is additive over the concatenation of argument lists. */
  lemma {:induction false} SumConcat(a: seq<real>, b: seq<real>)
    ensures Sum(a + b) == Sum(a) + Sum(b)
    decreases |b|
  {
    if |b| > 0 {
      assert (a + b)[..|a + b| - 1] == a + b[..|b| - 1];
      SumConcat(a, b[..|b| - 1]);
    } else {
      assert a + b == a;
    }
  }

  /** `Multiply` is multiplicative over the concatenation of argument lists. */
  lemma {:induction false} ProductConcat(a: seq<real>, b: seq<real>)
    ensures Product(a + b) == Product(a) * Product(b)
    decreases |b|
  {
    if |b| > 0 {
      assert (a + b)[..|a + b| - 1] == a + b[..|b| - 1];
      ProductConcat(a, b[..|b| - 1]);
    } else {
      assert a + b == a;
    }
  }

  /**
   * Division succeeds exactly when there is a first argument and no later one
   * is zero, and then it is the first argument over the product of the rest.
   */
  lemma {:induction false} QuotientCharacterized(s: seq<real>)
    ensures Quotient(s).Ok? <==> |s| > 0 && forall i :: 1 <= i < |s| ==> s[i] != 0.0
    ensures Quotient(s) == Err(NoArguments) <==> |s| == 0
    ensures Quotient(s).Ok? ==> Quotient(s).value == s[0] / Product(s[1..])
  {
    if |s| == 1 {
      assert s[1..] == [];
    } else if |s| > 1 {
      var init, last := s[..|s| - 1], s[|s| - 1];
      QuotientCharacterized(init);
      assert forall i :: 1 <= i < |init| ==> init[i] == s[i];
      if Quotient(s).Ok? {
        var q := Quotient(init).value;
        var p := Product(init[1..]);
        assert s[1..][..|s| - 2] == init[1..];
        assert Product(s[1..]) == p * last;
        assert q == s[0] / p;
        assert q / last == s[0] / (p * last);
      }
    }
  }

  /** The values the `main` demo computes, and the empty sum and empty division. */
  lemma ElementaryExamples(sin: real -> real)
    ensures Apply(PlusFunc, [], sin) == Ok(0.0)
    ensures Apply(DivideFunc, [], sin) == Err(NoArguments)
    ensures Apply(DivideFunc, [1.0, 2.0, 3.0], sin) == Ok(1.0 / 6.0)
    ensures Apply(PlusFunc, [0.0, 1.0, 2.0], sin) == Ok(3.0)
    ensures Apply(MinusFunc, [1.0, 2.0], sin) == Ok(-3.0)
  {
    assert [1.0, 2.0, 3.0][..2] == [1.0, 2.0];
    assert [1.0, 2.0][..1] == [1.0];
    assert [0.0, 1.0, 2.0][..2] == [0.0, 1.0];
    assert [0.0, 1.0][..1] == [0.0];
    assert [1.0][..0] == [];
    assert Difference([1.0]) == -1.0;
  }
}
