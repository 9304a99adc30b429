# Dual numbers and a partially evaluable expression tree

This project models the two core files of a small forward-mode
automatic-differentiation experiment and proves properties of the model.

- `dual_numbers.py`: a `Dual` value `re + du·ε` with ε² = 0. It has `eq`, `abs`,
  negation, addition, subtraction, the product rule, the quotient rule with its
  failures, and a power loop. The model is `DualNumbers` (`dual_numbers.dfy`).
- `automatic_diff.py`: a symbolic tree with these parts:
  - `Variable` leaves, float literals, and `Expr` / `InfixExpr` nodes. Each node
    carries a name, an elementary function and arguments.
  - Negation, which copies the value with its flag flipped.
  - Calling with keyword bindings. A bound `Variable` gives its signed value
    and an unbound one returns itself. A node gives a float when all its
    arguments reduce to floats, and otherwise a partially evaluated plain
    `Expr`. A call can also fail, for example `Divide()` or a division by zero.
  - `repr`, with the two `str.replace` sign-folding passes of `InfixExpr`.
  - The constructors `Sin`, `Plus`, `Minus`, `Multiply` and `Divide`, with
    their inner functions.

  The model is spread over four modules:
  - `Elementary` (`elementary.dfy`): the inner functions, as loops proved
    equal to left folds.
  - `Expressions` (`expressions.dfy`): the tree, `getsign`, negation, the
    constructors, the evaluation function `Eval`, and the imperative
    `__call__` methods proved equal to it.
  - `Evaluation` (`evaluation.dfy`): what calling promises — lookup, full and
    partial results, negation, idempotence and currying.
  - `Rendering` (`rendering.dfy`): `__repr__`, Python's `str.replace` and the
    sign-folding passes.

  `Results` (`results.dfy`) holds the `Option` and `Result` wrappers.

Python floats are modelled as `real`, so the algebraic laws hold exactly. Two
things become parameters of the model, because they are foreign calls:
- `math.sin` is the parameter `sin: real -> real`;
- Python's `str(float)` is the parameter `show: real -> string`.

Exceptions become `Result` values:
- `DivError` for dual division;
- `EvalError` for evaluation: dividing no arguments, a zero divisor, or `Sin`
  without an argument.

A call's `**kwargs` is a sequence of `Binding`s, in dictionary order. A
variable takes the first binding with its name, as the loop in
`Variable.__call__` does.

Some behaviour of the code is easy to miss:
- The partial result of a call is built as `Expr(self.name, self.func, newargs)`.
  It is therefore never negated and never infix, even when the called node was
  (`automatic_diff.py:67` with `:39`). As a result:
  - currying holds only when no node that stays symbolic is negated
    (`Evaluation.Currying` with `PartialNodesUnnegated`);
  - `Evaluation.NegatedPartialBreaksCurrying` gives a concrete input where
    currying fails.
- Infix rendering parenthesises only `InfixExpr` arguments, not literals
  (`automatic_diff.py:73`).
- Evaluation works on plain floats with `math.sin`. It does not use dual numbers.
- `__pow__` runs `range(p)`, so every `p <= 0`, not only `p == 0`, gives `(1, 0)`.
- Dual division by `(0, 0)` when the dividend's real part is also zero fails
  while forming its message (`self.dual/other.dual`). The model keeps this as
  its own error, `MessageZeroDivision`.

## Model

| member | source | states |
|---|---|---|
| DualNumbers.RealAbs | dual_numbers.py:12 | Python's `abs` on a float is non-negative and equals `x` or `-x` |
| DualNumbers.Eq | dual_numbers.py:9-10 | the `eq` as written holds only when the left operand's two parts are equal, and then it agrees with `==` exactly when the right operand's two parts are equal too |
| DualNumbers.EqComponentwise | dual_numbers.py:9-10 | the corrected `eq` holds exactly when both components are equal |
| DualNumbers.EqReflexiveIff | dual_numbers.py:9-10 | the `eq` as written holds of `(a, a)` exactly when `a.re == a.du`, so it is not reflexive |
| DualNumbers.EqCounterexamples | dual_numbers.py:9-10 | `eq` rejects `(2,3)` against itself; it accepts `(3,3)` against the different `(0,3)` |
| DualNumbers.Abs | dual_numbers.py:11-12 | each component of `abs(a)` is non-negative and is that component of `a` or its negation |
| DualNumbers.AbsIdempotent | dual_numbers.py:11-14 | `abs(abs(a)) == abs(a)` |
| DualNumbers.Neg | dual_numbers.py:15-16 | `a + (-a)` is `(0, 0)` |
| DualNumbers.NegInvolution | dual_numbers.py:15-16 | `-(-a) == a` |
| DualNumbers.NegAbsExample | dual_numbers.py:11-16 | `-Dual(-1,-1) == abs(Dual(-1,-1)) == Dual(1,1)` |
| DualNumbers.AddCommutes | dual_numbers.py:17-18 | componentwise addition commutes |
| DualNumbers.Sub | dual_numbers.py:19-20 | `a - b` is the componentwise difference, and `(a - b) + b == a` |
| DualNumbers.SubSelf | dual_numbers.py:19-20 | `a - a == Dual(0, 0)` for every `a` |
| DualNumbers.MulIdentity | dual_numbers.py:21-22 | `(1, 0)` is a two-sided identity of the product rule |
| DualNumbers.MulCommutes | dual_numbers.py:21-22 | the product rule is commutative |
| DualNumbers.MulExamples | dual_numbers.py:21-22 | `(2,3)*(1,1) == (2,5)`, `(2,3)*(0,1) == (0,2)` and `(2,3)*(1,0) == (2,3)` |
| DualNumbers.Div | dual_numbers.py:23-31 | succeeds exactly when `b.re != 0`, and then the quotient times `b` is `a`; otherwise "not defined" exactly when `a.re != 0`, else "infinite solutions" when `b.du != 0`, and a failure in the message when `b.du == 0` |
| DualNumbers.DivMulRoundTrip | dual_numbers.py:23-28 | `(a * b) / b == a` whenever `b.re != 0` |
| DualNumbers.DivUnique | dual_numbers.py:23-28 | the quotient is the only dual number that multiplies by `b` back to `a` |
| DualNumbers.DivExample | dual_numbers.py:23-28 | `(2,3)/(1,1) == (2,1)` |
| DualNumbers.Pow | dual_numbers.py:32-36 | the loop yields `p` products of `a` starting from `(1,0)`: `(1,0)` for `p <= 0`, and `(re^p, p·re^(p-1)·du)` for `p >= 0` |
| DualNumbers.PowClosedForm | dual_numbers.py:32-36 | the `n`-fold product has real part `re^n`, and dual part given by the power rule |
| DualNumbers.PowZero | dual_numbers.py:32-36 | `a ** 0 == (1, 0)` |
| DualNumbers.PowNonPositive | dual_numbers.py:32-36 | `a ** p == (1, 0)` for every `p <= 0` |
| DualNumbers.PowSucc | dual_numbers.py:32-36 | `a ** (p+1) == (a ** p) * a` for `p >= 0` |
| DualNumbers.PowOne | dual_numbers.py:32-36 | `a ** 1 == a` |
| Elementary.Product | automatic_diff.py:104-108 | a product of non-zero factors is non-zero |
| Elementary.PlusLoop | automatic_diff.py:88-92 | the accumulating loop returns the left-fold sum, starting from 0 |
| Elementary.MinusLoop | automatic_diff.py:96-100 | the loop returns `0 - a1 - ... - an` |
| Elementary.MultiplyLoop | automatic_diff.py:104-108 | the loop returns the left-fold product, starting from 1 |
| Elementary.DivideLoop | automatic_diff.py:112-118 | the loop returns `a1 / a2 / ... / an`; it fails on no arguments and on the first zero divisor |
| Elementary.CallFunc | automatic_diff.py:82-119 | the dispatch to a node's inner `f` computes `Apply`: `sin` of the first argument, or one of the four folds |
| Elementary.QuotientErrorPersists | automatic_diff.py:115-117 | once a prefix of the arguments has failed to divide, the whole division fails in the same way |
| Elementary.DifferenceIsNegatedSum | automatic_diff.py:95-101 | `Minus` computes the negated sum of its arguments |
| Elementary.SumConcat | automatic_diff.py:87-93 | the `Plus` fold is additive over concatenated argument lists |
| Elementary.ProductConcat | automatic_diff.py:103-109 | the `Multiply` fold is multiplicative over concatenated argument lists |
| Elementary.QuotientCharacterized | automatic_diff.py:111-119 | division succeeds exactly when there is a first argument and no later one is zero; it fails on arity exactly when there are none; its value is the first argument over the product of the rest |
| Elementary.ElementaryExamples | automatic_diff.py:87-119 | `Plus()` is 0, `Divide()` fails, `Divide(1,2,3)` is 1/6, `Plus(0,1,2)` is 3, and `Minus(1,2)` is -3 |
| Expressions.GetSign | automatic_diff.py:11-12 | the sign squares to 1 and is negative exactly for a negated term |
| Expressions.Negate | automatic_diff.py:19-22 | negating a `Variable` or `Expr` flips its flag and changes nothing else (a float literal is negated as a number) |
| Expressions.CallVariable | automatic_diff.py:24-28 | the loop over the bindings returns the signed value of the first binding with the variable's name, or the variable itself when there is none |
| Expressions.CallTerm | automatic_diff.py:59 | calling a non-literal argument gives what `Eval` specifies |
| Expressions.CallExpr | automatic_diff.py:52-67 | the loop over the arguments gives what `Eval` specifies: the first failure, the signed function value when all arguments are numbers, otherwise the rebuilt plain node |
| Expressions.CallArgs | automatic_diff.py:53-61 | the loop over the arguments collects what `EvalArgs` specifies (a literal kept, the others called, the first failure ending it), and `all_evaled` is true exactly when every collected value is a number |
| Evaluation.LookupConcat | automatic_diff.py:24-28 | looking up in `b1 + b2` finds `b1`'s binding when there is one, else `b2`'s |
| Evaluation.LookupFindsBinding | automatic_diff.py:24-28 | a lookup fails exactly when no binding has the key; with distinct keys it finds the value of the binding that has it |
| Evaluation.VariableCall | automatic_diff.py:24-28 | with distinct keys, a variable named by a binding evaluates to its signed bound value, and one named by no binding to itself |
| Evaluation.VariableCallUnbound | automatic_diff.py:24-28 | a variable called with bindings none of which names it returns itself, unchanged |
| Evaluation.EvalArgsOk | automatic_diff.py:55-61 | the arguments evaluate to `vs` exactly when each argument evaluates to the matching element of `vs` |
| Evaluation.EvalArgsErr | automatic_diff.py:55-61 | evaluating the arguments fails exactly when some argument fails, with the error of the first failing argument |
| Evaluation.EvalArgsPointwise | automatic_diff.py:55-61 | argument lists that evaluate pointwise alike evaluate alike as a whole |
| Evaluation.FullEvaluation | automatic_diff.py:63-65 | when every argument evaluates to a number, the node is `getsign(negative) * f(numbers)`, or `f`'s failure |
| Evaluation.PartialResultShape | automatic_diff.py:52-67 | a symbolic result keeps the name, the function and the number of arguments, is neither negated nor infix, holds each argument's reduced form (a reduced float becomes a literal), and comes from at least one symbolic argument |
| Evaluation.PartialIdempotent | automatic_diff.py:52-67 | calling a partial result again with the same bindings gives that partial result again |
| Evaluation.NegateInvolution | automatic_diff.py:19-44 | negating twice gives the same term; negating a variable or node changes only its flag |
| Evaluation.EvalNegate | automatic_diff.py:19-67 | negating a term keeps its failure and negates the number it evaluates to; a negated unbound variable evaluates to itself; a node that stays partial gives the same partial result whether negated or not |
| Evaluation.EvalNegateVariable | automatic_diff.py:19-28 | a negated bound variable evaluates to the negated value, and a negated unbound one to itself |
| Evaluation.Currying | automatic_diff.py:52-67 | if no node that stays symbolic is negated, then calling with `b1` and then with `b2` equals calling once with `b1 + b2`; a number stays that number, and a failure stays a failure |
| Evaluation.NegatedPartialBreaksCurrying | automatic_diff.py:67 | `-Plus(x, y)` with `x=1` then `y=2` gives 3, but with both at once it gives -3 |
| Evaluation.DemoVariableCalls | automatic_diff.py:24-28 | `x(x=1.2)` is 1.2, `(-x)(x=1.2)` is -1.2, and `x(y=1.2)` is `x` |
| Evaluation.DemoSinConstant | automatic_diff.py:82-85 | `Sin(-1.2)()` is `sin(-1.2)`, and its negation calls to `-sin(-1.2)` |
| Evaluation.DemoDivide | automatic_diff.py:111-119 | `Divide(1.,2.,3.)()` is 1/6; `Divide()` builds fine and fails when it is called, under any bindings |
| Evaluation.DemoSumOfVariables | automatic_diff.py:87-93 | `Plus(x,y,z)(x=0.,y=1.,z=2.)` is 3 |
| Evaluation.DemoSinPlusConstant | automatic_diff.py:82-93 | `Plus(Sin(x), -1.)(x=p)` is `sin(p) - 1` |
| Rendering.Replace | automatic_diff.py:78-79 | `str.replace` with a replacement no longer than the pattern never lengthens the string, and with a strictly shorter one it keeps the length only when nothing was replaced |
| Rendering.FoldSigns | automatic_diff.py:78-79 | the two sign-folding passes never lengthen the rendering, and leave it as it is whenever its length is unchanged |
| Rendering.ReplaceSkip | automatic_diff.py:78-79 | the text before the first character that could start an occurrence is copied through unchanged |
| Rendering.ReplaceIdentity | automatic_diff.py:78-79 | a string that never contains the pattern's first character is unchanged |
| Rendering.ReplaceWithoutSecond | automatic_diff.py:78-79 | a string that never contains a two-character pattern's second character is unchanged |
| Rendering.ReplaceAtFront | automatic_diff.py:78-79 | an occurrence at the front is replaced, and scanning resumes after it |
| Rendering.ReplaceAppend | automatic_diff.py:78-79 | a character absent from the pattern can be appended before or after replacing, with the same result |
| Rendering.ReplaceMinusMinusClears | automatic_diff.py:79 | after replacing `--` by `+`, no two minus signs are adjacent |
| Rendering.FoldSignsNoDoubleMinus | automatic_diff.py:78-79 | no rendering that has been sign-folded contains `--` |
| Rendering.FoldSignsOrder | automatic_diff.py:76-79 | the passes depend on their order: `+--` folds to `+`, the other order gives `++`; folding is not idempotent (`++-` gives `+-`, then `-`) |
| Rendering.FoldPlusMinus | automatic_diff.py:78-79 | between two operands without signs, `+-` folds to one `-` |
| Rendering.PassKeepsWrapping | automatic_diff.py:75-79 | either pass works inside a `-(...)` wrapping and leaves the wrapping as it is |
| Rendering.NegatedInfixWrapped | automatic_diff.py:71-80 | a negated `InfixExpr` renders as `-(` … `)`, even after sign folding |
| Rendering.InfixReprNoDoubleMinus | automatic_diff.py:71-80 | the rendering of any `InfixExpr` contains no `--`, whatever its operands print as |
| Rendering.ReprVariable | automatic_diff.py:30-31 | a variable renders as its identifier; negating it adds or removes the leading minus |
| Rendering.OperandsAt | automatic_diff.py:73-74 | each operand of an `InfixExpr` is its argument's text, in parentheses exactly when that argument is itself an `InfixExpr` |
| Rendering.ReprsAt | automatic_diff.py:49 | each comma-separated part of a plain `Expr` is its argument's text, never parenthesised |
| Rendering.ReprPlainNode | automatic_diff.py:46-50 | a plain `Expr` is not sign-folded, so negating it only adds or removes the leading minus |
| Rendering.DemoSumOperands | automatic_diff.py:73-74 | the operands of `Plus(Sin(x), -1.)` render as `Sin(x)` and `-1.0`, since only infix children are parenthesised |
| Rendering.DemoSumWithNegativeLiteral | automatic_diff.py:71-80 | `Plus(Sin(x), -1.)` renders as `Sin(x)-1.0` |
| Rendering.DemoNegatedSum | automatic_diff.py:71-80 | `-Plus(x,y,z)` renders as `-(x+y+z)`, and `-x` as `-x` |
| Rendering.DemoNegatedVariable | automatic_diff.py:30-31 | `-x` renders as `-x` |
| Rendering.FoldNegatedSum | automatic_diff.py:78-79 | sign folding leaves `-(x+y+z)` as it is |

## Left out

- The `main` drivers and `__main__` guards of both files are left out: they only print. Several of their calls are restated as example lemmas (the `Demo…` members, `MulExamples`, `DivExample`, `NegAbsExample`). `Dual(2.,3.)**4` and the printed `repr` of `Sin(-1.2)`, `Divide(1.,2.,3.)` and `Plus(x,y,z)` have no lemma of their own.
- IEEE-754 behaviour (rounding, infinities, NaN, signed zero) is not modelled. Floats are `real`, so every law above holds exactly and would only hold approximately for Python floats.
- `math.sin` and `str(float)` are foreign calls. They are the parameters `sin` and `show`, and nothing is assumed about them beyond what a lemma requires.
- `Dual.__repr__` is not part of this model: it only formats text. `__abs__` is a plain alias of `abs`, and `Abs` models both.
- Exception classes and message texts are represented only by the error variant.
- An `int` literal among the arguments falls through the `type(arg) == float` test and crashes on `.__call__`. This accident of dynamic typing is not modelled. Literals are reals.
- A binding to a non-float value (such as an `int`) is not modelled.
- Keyword arguments are a sequence, not a dictionary. Keys are distinct wherever a lemma needs them to be.
- `__neg__` uses `copy.copy` followed by a field assignment. It is modelled on values, as a new term with the flag flipped, so aliasing between the copy and the original (they share one argument list) is not modelled. The same holds for `Expr.__call__` building a fresh node.
- `Rendering.Replace` requires a non-empty pattern. Python's `str.replace` with an empty pattern is not used by the source.
- `typing`, `Protocol` and `cast` are annotations only.

## Findings

| source | as written | input that shows it | evidently intended | confidence | as-written member | corrected member |
|---|---|---|---|---|---|---|
| dual_numbers.py:10 | `eq` compares `self.real` with `other.dual` | `Dual(2,3).eq(Dual(2,3))` is false, and `Dual(3,3).eq(Dual(0,3))` is true | componentwise equality, `self.real == other.real and self.dual == other.dual` | high; not executed | DualNumbers.EqCounterexamples | DualNumbers.EqComponentwise |
