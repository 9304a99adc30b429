/**
 * The symbolic expression tree of automatic_diff.py: `Variable` leaves,
 * float literals and `Expr` / `InfixExpr` nodes, their negation, and calling
 * them with keyword bindings (full or partial evaluation).
 */
module Expressions {
  import opened Results
  import opened Elementary

  /**
   * A `Variable` (identifier and negation flag), a float literal, or an `Expr`
   * node; `infix` tells an `InfixExpr` from a plain `Expr`.
   */
  datatype Term =
    | Var(id: string, negative: bool)
    | Lit(x: real)
    | Node(name: string, func: Func, args: seq<Term>, negative: bool, infix: bool)

  /** One keyword argument of a call; a call's `**kwargs` is a sequence of them, in order. */
  datatype Binding = Binding(key: string, value: real)

  /** What a call returns: a float, or a (partially evaluated) term. */
  datatype Value = Num(x: real) | Sym(t: Term)

  /** `getsign`: -1 for a negated term, 1 otherwise. */
  function GetSign(negative: bool): (s: real)
    ensures s * s == 1.0
    ensures s < 0.0 <==> negative
  {
    if negative then -1.0 else 1.0
  }

  /** The value bound to `k`: the first binding with that key, as the loop in `Variable.__call__` finds it. */
  function Lookup(kwargs: seq<Binding>, k: string): Option<real>
  {
    if |kwargs| == 0 then None
    else if kwargs[0].key == k then Some(kwargs[0].value)
    else Lookup(kwargs[1..], k)
  }

  /** Keyword arguments never repeat a key. */
  predicate DistinctKeys(kwargs: seq<Binding>)
  {
    forall i, j :: 0 <= i < j < |kwargs| ==> kwargs[i].key != kwargs[j].key
  }

  /** `__neg__` of a `Variable` or an `Expr`: a copy with the flag flipped; a literal negates its value. */
  function Negate(t: Term): (r: Term)
    ensures t.Lit? ==> r == Lit(-t.x)
    ensures !t.Lit? ==> !r.Lit? && r.negative != t.negative && r == t.(negative := r.negative)
  {
    match t
    case Var(id, neg) => Var(id, !neg)
    case Lit(x) => Lit(-x)
    case Node(name, f, args, neg, infix) => Node(name, f, args, !neg, infix)
  }

  // The constructor functions. None of them calls its inner `f`.

  function Sin(arg: Term): Term
  {
    Node("Sin", SinFunc, [arg], false, false)
  }

  function Plus(args: seq<Term>): Term
  {
    Node("+", PlusFunc, args, false, true)
  }

  function Minus(args: seq<Term>): Term
  {
    Node("-", MinusFunc, args, false, true)
  }

  function Multiply(args: seq<Term>): Term
  {
    Node("*", MultiplyFunc, args, false, true)
  }

  function Divide(args: seq<Term>): Term
  {
    Node("/", DivideFunc, args, false, true)
  }

  /**
   * Calling a term with bindings. Literals pass through, a bound variable is
   * its signed value and an unbound one is itself. A node calls each argument
   * in order; if all give numbers it applies its function and its sign,
   * otherwise it is rebuilt as a plain, non-negated `Expr` over the reduced
   * arguments.
   */
  function Eval(t: Term, kwargs: seq<Binding>, sin: real -> real): Result<Value, EvalError>
    decreases t
  {
    match t
    case Lit(x) => Ok(Num(x))
    case Var(id, neg) =>
      if Lookup(kwargs, id).Some? then Ok(Num(GetSign(neg) * Lookup(kwargs, id).value)) else Ok(Sym(t))
    case Node(name, f, args, neg, _) =>
      match EvalArgs(args, kwargs, sin)
      case Err(e) => Err(e)
      case Ok(vs) => Combine(name, f, neg, vs, sin)
  }

  /** The arguments called left to right; the first failure is the result. */
  function EvalArgs(args: seq<Term>, kwargs: seq<Binding>, sin: real -> real): Result<seq<Value>, EvalError>
    decreases args
  {
    if |args| == 0 then Ok([])
    else
      match Eval(args[0], kwargs, sin)
      case Err(e) => Err(e)
      case Ok(v) =>
        match EvalArgs(args[1..], kwargs, sin)
        case Err(e) => Err(e)
        case Ok(vs) => Ok([v] + vs)
  }

  predicate AllNum(vs: seq<Value>)
  {
    forall i :: 0 <= i < |vs| ==> vs[i].Num?
  }

  /** The numbers of a list of values (a symbolic one reads as 0; callers check AllNum first). */
  function Nums(vs: seq<Value>): (r: seq<real>)
    ensures |r| == |vs|
    ensures forall i :: 0 <= i < |vs| && vs[i].Num? ==> r[i] == vs[i].x
  {
    seq(|vs|, i requires 0 <= i < |vs| => if vs[i].Num? then vs[i].x else 0.0)
  }

  /** A reduced argument as it is stored in the new node: a float becomes a literal. */
  function AsTerm(v: Value): Term
  {
    match v
    case Num(x) => Lit(x)
    case Sym(t) => t
  }

  function AsTerms(vs: seq<Value>): (r: seq<Term>)
    ensures |r| == |vs|
    ensures forall i :: 0 <= i < |vs| ==> r[i] == AsTerm(vs[i])
  {
    seq(|vs|, i requires 0 <= i < |vs| => AsTerm(vs[i]))
  }

  /** The end of `Expr.__call__`, once every argument has been called. */
  function Combine(name: string, f: Func, neg: bool, vs: seq<Value>, sin: real -> real): Result<Value, EvalError>
  {
    if AllNum(vs) then
      match Apply(f, Nums(vs), sin)
      case Err(e) => Err(e)
      case Ok(y) => Ok(Num(GetSign(neg) * y))
    else
      Ok(Sym(Node(name, f, AsTerms(vs), false, false)))
  }

  /** How far EvalArgs has got after the first `n` values: the rest is still to be called. */
  function Prepend(vs: seq<Value>, rest: Result<seq<Value>, EvalError>): Result<seq<Value>, EvalError>
  {
    match rest
    case Err(e) => Err(e)
    case Ok(ws) => Ok(vs + ws)
  }

  lemma PrependEmpty(rest: Result<seq<Value>, EvalError>)
    ensures Prepend([], rest) == rest
  {
    if rest.Ok? {
      assert [] + rest.value == rest.value;
    }
  }

  lemma PrependStep(vs: seq<Value>, v: Value, rest: Result<seq<Value>, EvalError>)
    ensures Prepend(vs, Prepend([v], rest)) == Prepend(vs + [v], rest)
    ensures AllNum(vs + [v]) <==> AllNum(vs) && v.Num?
  {
    if rest.Ok? {
      assert vs + ([v] + rest.value) == (vs + [v]) + rest.value;
    }
    assert forall i :: 0 <= i < |vs| ==> (vs + [v])[i] == vs[i];
    assert (vs + [v])[|vs|] == v;
  }

  /**
   * `Variable.__call__`: walks the keyword arguments and returns the signed
   * value of the first one named like the variable, or the variable itself.
   */
  method CallVariable(v: Term, kwargs: seq<Binding>) returns (r: Value)
    requires v.Var?
    ensures Lookup(kwargs, v.id).Some? ==> r == Num(GetSign(v.negative) * Lookup(kwargs, v.id).value)
    ensures Lookup(kwargs, v.id).None? ==> r == Sym(v)
  {
    var i := 0;
    while i < |kwargs|
      invariant 0 <= i <= |kwargs|
      invariant Lookup(kwargs, v.id) == Lookup(kwargs[i..], v.id)
    {
      assert kwargs[i..][1..] == kwargs[i + 1..];
      if kwargs[i].key == v.id {
        return Num(GetSign(v.negative) * kwargs[i].value);
      }
      i := i + 1;
    }
    r := Sym(v);
  }

  /** `arg.__call__(**kwargs)`: dispatches to `Variable.__call__` or `Expr.__call__`. */
  method CallTerm(t: Term, kwargs: seq<Binding>, sin: real -> real) returns (r: Result<Value, EvalError>)
    requires !t.Lit?
    ensures r == Eval(t, kwargs, sin)
    decreases t, 2
  {
    if t.Var? {
      var v := CallVariable(t, kwargs);
      r := Ok(v);
    } else {
      r := CallExpr(t, kwargs, sin);
    }
  }

  /**
   * `Expr.__call__`: calls the arguments, then applies the function and the
   * sign when all of them gave numbers, or rebuilds a plain `Expr` over them.
   */
  method CallExpr(e: Term, kwargs: seq<Binding>, sin: real -> real) returns (r: Result<Value, EvalError>)
    requires e.Node?
    ensures r == Eval(e, kwargs, sin)
    decreases e, 1
  {
    var res, allEvaled := CallArgs(e, kwargs, sin);
    if res.Err? {
      return Err(res.error);
    }
    var newargs := res.value;
    EvalNode(e, newargs, kwargs, sin);
    if allEvaled {
      var y := CallFunc(e.func, Nums(newargs), sin);
      CombineNumbers(e.name, e.func, e.negative, newargs, sin);
      if y.Err? {
        return Err(y.error);
      }
      return Ok(Num(GetSign(e.negative) * y.value));
    }
    r := Ok(Sym(Node(e.name, e.func, AsTerms(newargs), false, false)));
  }

  /**
   * The loop of `Expr.__call__`: calls each argument in turn (a literal is kept
   * as it is), collects the results in `newargs` and tracks whether all were
   * numbers; the first failing call ends it.
   */
  method CallArgs(e: Term, kwargs: seq<Binding>, sin: real -> real) returns (r: Result<seq<Value>, EvalError>, allEvaled: bool)
    requires e.Node?
    ensures r == EvalArgs(e.args, kwargs, sin)
    ensures r.Ok? ==> (allEvaled <==> AllNum(r.value))
    decreases e, 0
  {
    var args := e.args;
    allEvaled := true;
    var newargs: seq<Value> := [];
    var i := 0;
    assert args[i..] == args;
    PrependEmpty(EvalArgs(args, kwargs, sin));
    while i < |args|
      invariant 0 <= i <= |args|
      invariant EvalArgs(args, kwargs, sin) == Prepend(newargs, EvalArgs(args[i..], kwargs, sin))
      invariant |newargs| == i
      invariant allEvaled <==> AllNum(newargs)
    {
      var arg := args[i];
      var newarg: Value;
      if arg.Lit? {
        newarg := Num(arg.x);
      } else {
        var res := CallTerm(arg, kwargs, sin);
        if res.Err? {
          ArgFails(args, i, newargs, kwargs, sin);
          return Err(res.error), false;
        }
        newarg := res.value;
      }
      ArgSucceeds(args, i, newargs, newarg, kwargs, sin);
      newargs := newargs + [newarg];
      allEvaled := allEvaled && newarg.Num?;
      i := i + 1;
    }
    assert args[i..] == [];
    assert newargs + [] == newargs;
    r := Ok(newargs);
  }

  /** One more argument called successfully: the loop invariant of `CallArgs` moves on by one. */
  lemma ArgSucceeds(args: seq<Term>, i: nat, newargs: seq<Value>, newarg: Value, kwargs: seq<Binding>, sin: real -> real)
    requires i < |args| && Eval(args[i], kwargs, sin) == Ok(newarg)
    requires EvalArgs(args, kwargs, sin) == Prepend(newargs, EvalArgs(args[i..], kwargs, sin))
    ensures EvalArgs(args, kwargs, sin) == Prepend(newargs + [newarg], EvalArgs(args[i + 1..], kwargs, sin))
    ensures AllNum(newargs + [newarg]) <==> AllNum(newargs) && newarg.Num?
  {
    assert args[i..][1..] == args[i + 1..];
    PrependStep(newargs, newarg, EvalArgs(args[i + 1..], kwargs, sin));
  }

  /** An argument whose call fails makes all of `EvalArgs` fail with its error. */
  lemma ArgFails(args: seq<Term>, i: nat, newargs: seq<Value>, kwargs: seq<Binding>, sin: real -> real)
    requires i < |args| && Eval(args[i], kwargs, sin).Err?
    requires EvalArgs(args, kwargs, sin) == Prepend(newargs, EvalArgs(args[i..], kwargs, sin))
    ensures EvalArgs(args, kwargs, sin) == Err(Eval(args[i], kwargs, sin).error)
  {
    assert args[i..][0] == args[i];
  }

  /** Once all arguments of a node are called, the node's value is what `Combine` makes of them. */
  lemma EvalNode(e: Term, vs: seq<Value>, kwargs: seq<Binding>, sin: real -> real)
    requires e.Node? && EvalArgs(e.args, kwargs, sin) == Ok(vs)
    ensures Eval(e, kwargs, sin) == Combine(e.name, e.func, e.negative, vs, sin)
  {
  }

  /** When every argument gave a number, `Combine` applies the function and the sign, or fails with it. */
  lemma CombineNumbers(name: string, f: Func, neg: bool, vs: seq<Value>, sin: real -> real)
    requires AllNum(vs)
    ensures Apply(f, Nums(vs), sin).Err? ==> Combine(name, f, neg, vs, sin) == Err(Apply(f, Nums(vs), sin).error)
    ensures Apply(f, Nums(vs), sin).Ok? ==> Combine(name, f, neg, vs, sin) == Ok(Num(GetSign(neg) * Apply(f, Nums(vs), sin).value))
  {
  }
}
