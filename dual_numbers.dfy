/**
 * Dual numbers `re + du·ε` with ε² = 0 (dual_numbers.py). Python floats are
 * modelled by `real`, so every algebraic law holds exactly.
 */
module DualNumbers {
  import opened Results

  /** A value and its derivative; `du` is the coefficient of ε. */
  datatype Dual = Dual(re: real, du: real)

  /** The multiplicative identity that `__pow__` starts from. */
  const One: Dual := Dual(1.0, 0.0)

  const Zero: Dual := Dual(0.0, 0.0)

  /** The three ways `__truediv__` fails when the divisor's real part is zero. */
  datatype DivError =
    | NotDefined          // the dividend's real part is non-zero
    | InfiniteSolutions   // both real parts are zero: every `x + yε` is a quotient
    | MessageZeroDivision // as InfiniteSolutions, but forming its message divides by the divisor's zero dual part

  function RealAbs(x: real): (r: real)
    ensures r >= 0.0 && (r == x || r == -x)
  {
    if x < 0.0 then -x else x
  }

  /**
   * The hand-written `eq`: it compares the real part of `a` with the DUAL part
   * of `b`, not with `b.re`.
   */
  function Eq(a: Dual, b: Dual): (r: bool)
    ensures r ==> a.re == a.du
    ensures r ==> (a == b <==> b.re == b.du)
  {
    a.re == b.du && a.du == b.du
  }

  /** Componentwise equality, which `eq` was evidently meant to be. */
  function EqComponentwise(a: Dual, b: Dual): (r: bool)
    ensures r <==> a == b
  {
    a.re == b.re && a.du == b.du
  }

  function Abs(a: Dual): (r: Dual)
    ensures r.re >= 0.0 && (r.re == a.re || r.re == -a.re)
    ensures r.du >= 0.0 && (r.du == a.du || r.du == -a.du)
  {
    Dual(RealAbs(a.re), RealAbs(a.du))
  }

  function Neg(a: Dual): (r: Dual)
    ensures Add(a, r) == Zero
  {
    Dual(-a.re, -a.du)
  }

  function Add(a: Dual, b: Dual): Dual
  {
    Dual(a.re + b.re, a.du + b.du)
  }

  /** `a - b` is defined as `a + (-b)`. */
  function Sub(a: Dual, b: Dual): (r: Dual)
    ensures r.re == a.re - b.re && r.du == a.du - b.du
    ensures Add(r, b) == a
  {
    Add(a, Neg(b))
  }

  /** The product rule: the dual part is `a.re·b.du + a.du·b.re`. */
  function Mul(a: Dual, b: Dual): Dual
  {
    Dual(a.re * b.re, a.re * b.du + a.du * b.re)
  }

  /**
   * The quotient rule when the divisor's real part is non-zero; otherwise one
   * of the three failures, split on the dividend's real part and then on the
   * divisor's dual part.
   */
  function Div(a: Dual, b: Dual): (r: Result<Dual, DivError>)
    ensures r.Ok? <==> b.re != 0.0
    ensures r.Ok? ==> Mul(r.value, b) == a
    ensures r == Err(NotDefined) <==> b.re == 0.0 && a.re != 0.0
    ensures r == Err(InfiniteSolutions) <==> b.re == 0.0 && a.re == 0.0 && b.du != 0.0
    ensures r == Err(MessageZeroDivision) <==> b.re == 0.0 && a.re == 0.0 && b.du == 0.0
  {
    if b.re != 0.0 then
      var q := Dual(a.re / b.re, (a.du * b.re - a.re * b.du) / (b.re * b.re));
      QuotientTimesDivisor(a, b);
      Ok(q)
    else if a.re != 0.0 then
      Err(NotDefined)
    else if b.du == 0.0 then
      Err(MessageZeroDivision)
    else
      Err(InfiniteSolutions)
  }

  lemma QuotientTimesDivisor(a: Dual, b: Dual)
    requires b.re != 0.0
    ensures Mul(Dual(a.re / b.re, (a.du * b.re - a.re * b.du) / (b.re * b.re)), b) == a
  {
    var x, y := a.re / b.re, (a.du * b.re - a.re * b.du) / (b.re * b.re);
    assert x * b.re == a.re;
    assert y * b.re == (a.du * b.re - a.re * b.du) / b.re;
    assert x * b.du == a.re * b.du / b.re;
    assert x * b.du + y * b.re == (a.re * b.du + (a.du * b.re - a.re * b.du)) / b.re;
  }

  /** What `__pow__` computes: `p` multiplications by `a`, starting from One. */
  function PowSpec(a: Dual, p: int): Dual
    decreases if p <= 0 then 0 else p
  {
    if p <= 0 then One else Mul(PowSpec(a, p - 1), a)
  }

  function RealPow(x: real, n: nat): real
  {
    if n == 0 then 1.0 else RealPow(x, n - 1) * x
  }

  /** The derivative of `x^n` along dual part `d`: `n·x^(n-1)·d`, and 0 for n = 0. */
  function PowDerivative(x: real, d: real, n: nat): real
  {
    if n == 0 then 0.0 else (n as real) * RealPow(x, n - 1) * d
  }

  /** `__pow__`: `ret` starts at One and is multiplied by `a` once per `i` in `range(p)`. */
  method Pow(a: Dual, p: int) returns (r: Dual)
    ensures r == PowSpec(a, p)
    ensures p <= 0 ==> r == One
    ensures p >= 0 ==> r.re == RealPow(a.re, p) && r.du == PowDerivative(a.re, a.du, p)
  {
    r := One;
    var i := 0;
    while i < p
      invariant 0 <= i <= if p > 0 then p else 0
      invariant r == PowSpec(a, i)
    {
      r := Mul(r, a);
      i := i + 1;
    }
    if p >= 0 {
      PowClosedForm(a, p);
    }
  }

  /** Over the reals the power loop computes `a.re^n` and, in the dual part, the power rule. */
  lemma {:induction false} PowClosedForm(a: Dual, n: nat)
    ensures PowSpec(a, n).re == RealPow(a.re, n)
    ensures PowSpec(a, n).du == PowDerivative(a.re, a.du, n)
  {
    if n > 0 {
      PowClosedForm(a, n - 1);
      PowDerivativeStep(a.re, a.du, n - 1);
    }
  }

  /** One multiplication by `(x, d)` turns the power-rule pair for `n` into the one for `n + 1`. */
  lemma PowDerivativeStep(x: real, d: real, n: nat)
    ensures RealPow(x, n) * d + PowDerivative(x, d, n) * x == PowDerivative(x, d, n + 1)
  {
    if n > 0 {
      var q := RealPow(x, n - 1);
      assert RealPow(x, n) == q * x;
      assert PowDerivative(x, d, n) * x == (n as real) * (q * x) * d;
      assert PowDerivative(x, d, n + 1) == ((n + 1) as real) * (q * x) * d;
    }
  }

  lemma PowZero(a: Dual)
    ensures PowSpec(a, 0) == One
  {
  }

  lemma PowNonPositive(a: Dual, p: int)
    requires p <= 0
    ensures PowSpec(a, p) == One
  {
  }

  lemma PowSucc(a: Dual, p: int)
    requires p >= 0
    ensures PowSpec(a, p + 1) == Mul(PowSpec(a, p), a)
  {
  }

  lemma PowOne(a: Dual)
    ensures PowSpec(a, 1) == a
  {
    assert PowSpec(a, 0) == One;
  }

  lemma NegInvolution(a: Dual)
    ensures Neg(Neg(a)) == a
  {
  }

  lemma AbsIdempotent(a: Dual)
    ensures Abs(Abs(a)) == Abs(a)
  {
  }

  lemma NegAbsExample()
    ensures Neg(Dual(-1.0, -1.0)) == Abs(Dual(-1.0, -1.0)) == Dual(1.0, 1.0)
  {
  }

  lemma SubSelf(a: Dual)
    ensures Sub(a, a) == Zero
  {
  }

  lemma AddCommutes(a: Dual, b: Dual)
    ensures Add(a, b) == Add(b, a)
  {
  }

  lemma MulIdentity(a: Dual)
    ensures Mul(a, One) == a && Mul(One, a) == a
  {
  }

  lemma MulCommutes(a: Dual, b: Dual)
    ensures Mul(a, b) == Mul(b, a)
  {
  }

  lemma MulExamples()
    ensures Mul(Dual(2.0, 3.0), Dual(1.0, 1.0)) == Dual(2.0, 5.0)
    ensures Mul(Dual(2.0, 3.0), Dual(0.0, 1.0)) == Dual(0.0, 2.0)
    ensures Mul(Dual(2.0, 3.0), Dual(1.0, 0.0)) == Dual(2.0, 3.0)
  {
  }

  /** Dividing a product by one of its factors gives back the other factor. */
  lemma DivMulRoundTrip(a: Dual, b: Dual)
    requires b.re != 0.0
    ensures Div(Mul(a, b), b) == Ok(a)
  {
    DivUnique(Mul(a, b), b, a);
  }

  /** The quotient is the only dual number that multiplies back to the dividend. */
  lemma DivUnique(a: Dual, b: Dual, x: Dual)
    requires b.re != 0.0 && Mul(x, b) == a
    ensures Div(a, b) == Ok(x)
  {
    var q := Div(a, b).value;
    assert Mul(q, b) == a;
    assert q.re * b.re == x.re * b.re;
    assert q.re == x.re;
    assert q.du * b.re == x.du * b.re;
  }

  lemma DivExample()
    ensures Div(Dual(2.0, 3.0), Dual(1.0, 1.0)) == Ok(Dual(2.0, 1.0))
  {
  }

  /** `eq` is not reflexive: it holds of `(a, a)` exactly when `a.re == a.du`. */
  lemma EqReflexiveIff(a: Dual)
    ensures Eq(a, a) <==> a.re == a.du
  {
  }

  /** Two inputs on which `eq` disagrees with equality, in both directions. */
  lemma EqCounterexamples()
    ensures !Eq(Dual(2.0, 3.0), Dual(2.0, 3.0))
    ensures Eq(Dual(3.0, 3.0), Dual(0.0, 3.0)) && Dual(3.0, 3.0) != Dual(0.0, 3.0)
    ensures EqComponentwise(Dual(2.0, 3.0), Dual(2.0, 3.0))
  {
  }
}
