/**
 * What calling an expression tree promises: lookup of keyword arguments,
 * the shape of full and partial results, negation, idempotence of a partial
 * result and currying (binding in two steps against binding at once).
 */
module Evaluation {
  import opened Results
  import opened Elementary
  import opened Expressions

  // ----- Keyword arguments -----

  /** Bindings given first win: looking a key up in `b1 + b2` finds it in `b1` when `b1` has it. */
  lemma {:induction false} LookupConcat(b1: seq<Binding>, b2: seq<Binding>, k: string)
    ensures Lookup(b1 + b2, k) == if Lookup(b1, k).Some? then Lookup(b1, k) else Lookup(b2, k)
  {
    if |b1| > 0 {
      assert (b1 + b2)[1..] == b1[1..] + b2;
      LookupConcat(b1[1..], b2, k);
    } else {
      assert b1 + b2 == b2;
    }
  }

  /** A key is found exactly when some binding carries it; with distinct keys its value is that binding's. */
  lemma {:induction false} LookupFindsBinding(kwargs: seq<Binding>, k: string)
    ensures Lookup(kwargs, k).None? <==> forall i :: 0 <= i < |kwargs| ==> kwargs[i].key != k
    ensures DistinctKeys(kwargs) ==>
      forall i :: 0 <= i < |kwargs| && kwargs[i].key == k ==> Lookup(kwargs, k) == Some(kwargs[i].value)
  {
    if |kwargs| > 0 {
      LookupFindsBinding(kwargs[1..], k);
      assert forall i :: 1 <= i < |kwargs| ==> kwargs[1..][i - 1] == kwargs[i];
    }
  }

  /**
   * A variable called with distinct bindings: its signed bound value when a
   * binding names it, and itself, unchanged, when none does.
   */
  lemma VariableCall(id: string, neg: bool, kwargs: seq<Binding>, sin: real -> real)
    requires DistinctKeys(kwargs)
    ensures forall i :: 0 <= i < |kwargs| && kwargs[i].key == id ==>
      Eval(Var(id, neg), kwargs, sin) == Ok(Num(GetSign(neg) * kwargs[i].value))
    ensures (forall i :: 0 <= i < |kwargs| ==> kwargs[i].key != id) ==>
      Eval(Var(id, neg), kwargs, sin) == Ok(Sym(Var(id, neg)))
  {
    VariableCallBound(id, neg, kwargs, sin);
    LookupFindsBinding(kwargs, id);
    if Lookup(kwargs, id).None? {
      VariableUnbound(id, neg, kwargs, sin);
    }
  }

  lemma VariableCallBound(id: string, neg: bool, kwargs: seq<Binding>, sin: real -> real)
    requires DistinctKeys(kwargs)
    ensures forall i :: 0 <= i < |kwargs| && kwargs[i].key == id ==>
      Eval(Var(id, neg), kwargs, sin) == Ok(Num(GetSign(neg) * kwargs[i].value))
  {
    forall i | 0 <= i < |kwargs| && kwargs[i].key == id
      ensures Eval(Var(id, neg), kwargs, sin) == Ok(Num(GetSign(neg) * kwargs[i].value))
    {
      LookupAt(kwargs, id, i);
      VariableBound(id, neg, kwargs, sin);
    }
  }

  /** A variable called with bindings none of which names it: itself, unchanged. */
  lemma VariableCallUnbound(id: string, neg: bool, kwargs: seq<Binding>, sin: real -> real)
    requires forall i :: 0 <= i < |kwargs| ==> kwargs[i].key != id
    ensures Eval(Var(id, neg), kwargs, sin) == Ok(Sym(Var(id, neg)))
  {
    LookupFindsBinding(kwargs, id);
    VariableUnbound(id, neg, kwargs, sin);
  }

  /** With distinct keys, the binding at index `i` is the one found for its key. */
  lemma LookupAt(kwargs: seq<Binding>, k: string, i: nat)
    requires DistinctKeys(kwargs) && i < |kwargs| && kwargs[i].key == k
    ensures Lookup(kwargs, k) == Some(kwargs[i].value)
  {
    LookupFindsBinding(kwargs, k);
  }

  /** A variable's call depends on the bindings only through the lookup of its identifier. */
  lemma VariableDependsOnLookup(id: string, neg: bool, k1: seq<Binding>, k2: seq<Binding>, sin: real -> real)
    requires Lookup(k1, id) == Lookup(k2, id)
    ensures Eval(Var(id, neg), k1, sin) == Eval(Var(id, neg), k2, sin)
  {
  }

  lemma VariableBound(id: string, neg: bool, kwargs: seq<Binding>, sin: real -> real)
    requires Lookup(kwargs, id).Some?
    ensures Eval(Var(id, neg), kwargs, sin) == Ok(Num(GetSign(neg) * Lookup(kwargs, id).value))
  {
  }

  lemma VariableUnbound(id: string, neg: bool, kwargs: seq<Binding>, sin: real -> real)
    requires Lookup(kwargs, id).None?
    ensures Eval(Var(id, neg), kwargs, sin) == Ok(Sym(Var(id, neg)))
  {
  }

  // ----- Arguments -----

  /** The arguments all succeed, with values `vs`, exactly when each argument's call gives its entry of `vs`. */
  lemma {:induction false} EvalArgsOk(args: seq<Term>, kwargs: seq<Binding>, sin: real -> real, vs: seq<Value>)
    ensures EvalArgs(args, kwargs, sin) == Ok(vs) <==>
      |vs| == |args| && forall i :: 0 <= i < |args| ==> Eval(args[i], kwargs, sin) == Ok(vs[i])
    decreases args
  {
    if |args| > 0 && |vs| > 0 {
      EvalArgsOk(args[1..], kwargs, sin, vs[1..]);
      assert vs == [vs[0]] + vs[1..];
      assert forall i :: 1 <= i < |args| ==> args[1..][i - 1] == args[i];
      assert forall i :: 1 <= i < |vs| ==> vs[1..][i - 1] == vs[i];
    }
  }

  /** The arguments fail exactly when one of them fails, with the error of the first that does. */
  lemma {:induction false} EvalArgsErr(args: seq<Term>, kwargs: seq<Binding>, sin: real -> real)
    ensures EvalArgs(args, kwargs, sin).Err? <==> exists i :: 0 <= i < |args| && Eval(args[i], kwargs, sin).Err?
    ensures EvalArgs(args, kwargs, sin).Err? ==>
      exists i :: 0 <= i < |args| && Eval(args[i], kwargs, sin) == Err(EvalArgs(args, kwargs, sin).error)
        && forall j :: 0 <= j < i ==> Eval(args[j], kwargs, sin).Ok?
    decreases args
  {
    if |args| > 0 {
      EvalArgsErr(args[1..], kwargs, sin);
      assert forall i :: 1 <= i < |args| ==> args[1..][i - 1] == args[i];
      if Eval(args[0], kwargs, sin).Ok? && EvalArgs(args, kwargs, sin).Err? {
        var i :| 0 <= i < |args[1..]| && Eval(args[1..][i], kwargs, sin) == Err(EvalArgs(args, kwargs, sin).error)
          && forall j :: 0 <= j < i ==> Eval(args[1..][j], kwargs, sin).Ok?;
        assert Eval(args[i + 1], kwargs, sin) == Err(EvalArgs(args, kwargs, sin).error);
      }
    }
  }

  /** Argument lists whose calls agree position by position give the same list of results. */
  lemma {:induction false} EvalArgsPointwise(a1: seq<Term>, k1: seq<Binding>, a2: seq<Term>, k2: seq<Binding>, sin: real -> real)
    requires |a1| == |a2|
    requires forall i :: 0 <= i < |a1| ==> Eval(a1[i], k1, sin) == Eval(a2[i], k2, sin)
    ensures EvalArgs(a1, k1, sin) == EvalArgs(a2, k2, sin)
    decreases a1
  {
    if |a1| > 0 {
      assert forall i :: 1 <= i < |a1| ==> a1[1..][i - 1] == a1[i] && a2[1..][i - 1] == a2[i];
      EvalArgsPointwise(a1[1..], k1, a2[1..], k2, sin);
    }
  }

  // ----- Full and partial results -----

  /** The number an argument evaluated to (0 where it did not). */
  function ArgNumbers(args: seq<Term>, kwargs: seq<Binding>, sin: real -> real): (r: seq<real>)
    ensures |r| == |args|
  {
    seq(|args|, i requires 0 <= i < |args| =>
      match Eval(args[i], kwargs, sin) case Ok(Num(x)) => x case _ => 0.0)
  }

  /**
   * When every argument evaluates to a number, the node is its sign times its
   * function of those numbers (or the function's failure).
   */
  lemma FullEvaluation(t: Term, kwargs: seq<Binding>, sin: real -> real)
    requires t.Node?
    requires forall i :: 0 <= i < |t.args| ==>
      Eval(t.args[i], kwargs, sin).Ok? && Eval(t.args[i], kwargs, sin).value.Num?
    ensures Apply(t.func, ArgNumbers(t.args, kwargs, sin), sin).Ok? ==>
      Eval(t, kwargs, sin) == Ok(Num(GetSign(t.negative) * Apply(t.func, ArgNumbers(t.args, kwargs, sin), sin).value))
    ensures Apply(t.func, ArgNumbers(t.args, kwargs, sin), sin).Err? ==>
      Eval(t, kwargs, sin) == Err(Apply(t.func, ArgNumbers(t.args, kwargs, sin), sin).error)
  {
    var vs := seq(|t.args|, i requires 0 <= i < |t.args| => Eval(t.args[i], kwargs, sin).value);
    EvalArgsOk(t.args, kwargs, sin, vs);
    assert Nums(vs) == ArgNumbers(t.args, kwargs, sin);
  }

  /**
   * A partial result is a new plain `Expr`, not negated, with the same name
   * and function and one reduced argument per original argument: a literal
   * for each argument that gave a number, the reduced term for the others,
   * at least one of which stayed symbolic.
   */
  lemma PartialResultShape(t: Term, kwargs: seq<Binding>, sin: real -> real, s: Term)
    requires t.Node? && Eval(t, kwargs, sin) == Ok(Sym(s))
    ensures s.Node? && s.name == t.name && s.func == t.func
    ensures !s.negative && !s.infix
    ensures |s.args| == |t.args|
    ensures forall i :: 0 <= i < |t.args| ==>
      Eval(t.args[i], kwargs, sin).Ok? && s.args[i] == AsTerm(Eval(t.args[i], kwargs, sin).value)
    ensures exists i :: 0 <= i < |t.args| && Eval(t.args[i], kwargs, sin).Ok? && Eval(t.args[i], kwargs, sin).value.Sym?
  {
    var vs := EvalArgs(t.args, kwargs, sin).value;
    EvalArgsOk(t.args, kwargs, sin, vs);
    assert !AllNum(vs);
  }

  /** Calling a partial result again with the same bindings changes nothing. */
  lemma {:induction false} PartialIdempotent(t: Term, kwargs: seq<Binding>, sin: real -> real)
    requires Eval(t, kwargs, sin).Ok? && Eval(t, kwargs, sin).value.Sym?
    ensures Eval(Eval(t, kwargs, sin).value.t, kwargs, sin) == Eval(t, kwargs, sin)
    decreases t
  {
    if t.Node? {
      var vs := EvalArgs(t.args, kwargs, sin).value;
      EvalArgsOk(t.args, kwargs, sin, vs);
      var s := Eval(t, kwargs, sin).value.t;
      var reduced := AsTerms(vs);
      assert s == Node(t.name, t.func, reduced, false, false);
      forall i | 0 <= i < |reduced|
        ensures Eval(reduced[i], kwargs, sin) == Ok(vs[i])
      {
        if vs[i].Sym? {
          PartialIdempotent(t.args[i], kwargs, sin);
        }
      }
      EvalArgsOk(reduced, kwargs, sin, vs);
    }
  }

  // ----- Negation -----

  /** Negation flips only the flag (a literal its value), and flipping twice restores the term. */
  lemma NegateInvolution(t: Term)
    ensures Negate(Negate(t)) == t
    ensures !t.Lit? ==> Negate(t) == t.(negative := !t.negative)
  {
  }

  /**
   * Negating a term negates the number it evaluates to and keeps its errors.
   * A negated unbound variable stays its negated self, but a negated node that
   * is only partially evaluated loses its sign: the partial result is the
   * same with or without the negation.
   */
  lemma EvalNegate(t: Term, kwargs: seq<Binding>, sin: real -> real)
    ensures Eval(t, kwargs, sin).Err? ==> Eval(Negate(t), kwargs, sin) == Eval(t, kwargs, sin)
    ensures Eval(t, kwargs, sin).Ok? && Eval(t, kwargs, sin).value.Num? ==>
      Eval(Negate(t), kwargs, sin) == Ok(Num(-Eval(t, kwargs, sin).value.x))
    ensures t.Var? && Eval(t, kwargs, sin).Ok? && Eval(t, kwargs, sin).value.Sym? ==>
      Eval(Negate(t), kwargs, sin) == Ok(Sym(Negate(t)))
    ensures t.Node? && Eval(t, kwargs, sin).Ok? && Eval(t, kwargs, sin).value.Sym? ==>
      Eval(Negate(t), kwargs, sin) == Eval(t, kwargs, sin)
  {
    match t
    case Lit(x) =>
    case Var(id, neg) =>
      EvalNegateVariable(id, neg, kwargs, sin);
    case Node(name, f, args, neg, infix) =>
      assert Negate(t) == Node(name, f, args, !neg, infix);
  }

  /** A negated bound variable gives the negated value; a negated unbound one stays itself. */
  lemma EvalNegateVariable(id: string, neg: bool, kwargs: seq<Binding>, sin: real -> real)
    ensures Negate(Var(id, neg)) == Var(id, !neg)
    ensures Lookup(kwargs, id).Some? ==>
      Eval(Var(id, !neg), kwargs, sin) == Ok(Num(-(GetSign(neg) * Lookup(kwargs, id).value)))
      && Eval(Var(id, neg), kwargs, sin) == Ok(Num(GetSign(neg) * Lookup(kwargs, id).value))
    ensures Lookup(kwargs, id).None? ==>
      Eval(Var(id, !neg), kwargs, sin) == Ok(Sym(Var(id, !neg)))
      && Eval(Var(id, neg), kwargs, sin) == Ok(Sym(Var(id, neg)))
  {
    if Lookup(kwargs, id).Some? {
      var v := Lookup(kwargs, id).value;
      VariableBound(id, neg, kwargs, sin);
      VariableBound(id, !neg, kwargs, sin);
      assert GetSign(!neg) * v == -(GetSign(neg) * v) by {
        if neg { assert GetSign(!neg) == 1.0 && GetSign(neg) == -1.0; }
      }
    } else {
      VariableUnbound(id, neg, kwargs, sin);
      VariableUnbound(id, !neg, kwargs, sin);
    }
  }

  // ----- Currying -----

  /** No node of `t` that stays partial under `kwargs` is negated. */
  predicate PartialNodesUnnegated(t: Term, kwargs: seq<Binding>, sin: real -> real)
    decreases t
  {
    match t
    case Node(_, _, args, neg, _) =>
      (neg ==> !(Eval(t, kwargs, sin).Ok? && Eval(t, kwargs, sin).value.Sym?))
      && forall i :: 0 <= i < |args| ==> PartialNodesUnnegated(args[i], kwargs, sin)
    case _ => true
  }

  /**
   * Binding `b1` and then `b2` is binding `b1 + b2` at once. A number found
   * under `b1` stays that number, a partial result called with `b2` gives what
   * the single call gives, and a failure under `b1` is still a failure (with
   * more bindings an earlier argument may fail first, with another error).
   * It needs every node that stays partial under `b1` to be unnegated,
   * because partial results drop the negation.
   */
  lemma {:induction false} Currying(t: Term, b1: seq<Binding>, b2: seq<Binding>, sin: real -> real)
    requires PartialNodesUnnegated(t, b1, sin)
    ensures Eval(t, b1, sin).Ok? && Eval(t, b1, sin).value.Num? ==> Eval(t, b1 + b2, sin) == Eval(t, b1, sin)
    ensures Eval(t, b1, sin).Ok? && Eval(t, b1, sin).value.Sym? ==>
      Eval(Eval(t, b1, sin).value.t, b2, sin) == Eval(t, b1 + b2, sin)
    ensures Eval(t, b1, sin).Err? ==> Eval(t, b1 + b2, sin).Err?
    decreases t
  {
    match t
    case Lit(_) =>
    case Var(id, neg) =>
      LookupConcat(b1, b2, id);
      if Lookup(b1, id).Some? {
        VariableDependsOnLookup(id, neg, b1 + b2, b1, sin);
      } else {
        VariableDependsOnLookup(id, neg, b1 + b2, b2, sin);
        VariableUnbound(id, neg, b1, sin);
      }
    case Node(name, f, args, neg, _) =>
      forall i | 0 <= i < |args|
        ensures Eval(args[i], b1, sin).Ok? && Eval(args[i], b1, sin).value.Num? ==>
          Eval(args[i], b1 + b2, sin) == Eval(args[i], b1, sin)
        ensures Eval(args[i], b1, sin).Ok? && Eval(args[i], b1, sin).value.Sym? ==>
          Eval(Eval(args[i], b1, sin).value.t, b2, sin) == Eval(args[i], b1 + b2, sin)
        ensures Eval(args[i], b1, sin).Err? ==> Eval(args[i], b1 + b2, sin).Err?
      {
        Currying(args[i], b1, b2, sin);
      }
      EvalArgsErr(args, b1, sin);
      EvalArgsErr(args, b1 + b2, sin);
      if EvalArgs(args, b1, sin).Ok? {
        var vs := EvalArgs(args, b1, sin).value;
        EvalArgsOk(args, b1, sin, vs);
        if AllNum(vs) {
          EvalArgsOk(args, b1 + b2, sin, vs);
        } else {
          var reduced := AsTerms(vs);
          forall i | 0 <= i < |args|
            ensures Eval(reduced[i], b2, sin) == Eval(args[i], b1 + b2, sin)
          {
          }
          EvalArgsPointwise(reduced, b2, args, b1 + b2, sin);
        }
      }
  }

  /** Without the side condition currying fails: the partial result of a negated sum forgets the minus. */
  lemma NegatedPartialBreaksCurrying(sin: real -> real)
    ensures
      var t := Negate(Plus([Var("x", false), Var("y", false)]));
      var b1, b2 := [Binding("x", 1.0)], [Binding("y", 2.0)];
      && Eval(t, b1, sin) == Ok(Sym(Node("+", PlusFunc, [Lit(1.0), Var("y", false)], false, false)))
      && Eval(Eval(t, b1, sin).value.t, b2, sin) == Ok(Num(3.0))
      && Eval(t, b1 + b2, sin) == Ok(Num(-3.0))
  {
    var t := Negate(Plus([Var("x", false), Var("y", false)]));
    var b1, b2 := [Binding("x", 1.0)], [Binding("y", 2.0)];
    assert "y" != "x";
    assert b1[1..] == [];
    assert Lookup(b1, "y") == None;
    var vs := [Num(1.0), Sym(Var("y", false))];
    EvalArgsOk(t.args, b1, sin, vs);
    assert !AllNum(vs);
    var s := Node("+", PlusFunc, [Lit(1.0), Var("y", false)], false, false);
    assert AsTerms(vs) == s.args;
    assert Eval(t, b1, sin).value.t == s;
    var ws := [Num(1.0), Num(2.0)];
    assert Eval(Var("y", false), b2, sin) == Ok(Num(2.0));
    EvalArgsOk(s.args, b2, sin, ws);
    EvalArgsOk(t.args, b1 + b2, sin, ws);
    assert AllNum(ws) && Nums(ws) == [1.0, 2.0];
    assert [1.0, 2.0][..1] == [1.0];
    assert [1.0][..0] == [];
  }

  // ----- The calls of the demonstration -----

  /** `x(x=1.2)` is 1.2 and `(-x)(x=1.2)` is -1.2; an unrelated binding leaves `x` as it is. */
  lemma DemoVariableCalls(sin: real -> real)
    ensures Eval(Var("x", false), [Binding("x", 1.2)], sin) == Ok(Num(1.2))
    ensures Eval(Negate(Var("x", false)), [Binding("x", 1.2)], sin) == Ok(Num(-1.2))
    ensures Eval(Var("x", false), [Binding("y", 1.2)], sin) == Ok(Sym(Var("x", false)))
  {
    assert [Binding("y", 1.2)][1..] == [];
  }

  /** `Sin(-1.2)` calls to `sin(-1.2)` and its negation to `-sin(-1.2)`. */
  lemma DemoSinConstant(sin: real -> real)
    ensures Eval(Sin(Lit(-1.2)), [], sin) == Ok(Num(sin(-1.2)))
    ensures Eval(Negate(Sin(Lit(-1.2))), [], sin) == Ok(Num(-sin(-1.2)))
  {
    var vs := [Num(-1.2)];
    EvalArgsOk([Lit(-1.2)], [], sin, vs);
    assert AllNum(vs) && Nums(vs) == [-1.2];
  }

  /** `Divide(1., 2., 3.)()` is 1/6, and `Divide()` fails whatever the bindings. */
  lemma DemoDivide(kwargs: seq<Binding>, sin: real -> real)
    ensures Eval(Divide([Lit(1.0), Lit(2.0), Lit(3.0)]), [], sin) == Ok(Num(1.0 / 6.0))
    ensures Eval(Divide([]), kwargs, sin) == Err(NoArguments)
  {
    var vs := [Num(1.0), Num(2.0), Num(3.0)];
    EvalArgsOk([Lit(1.0), Lit(2.0), Lit(3.0)], [], sin, vs);
    assert AllNum(vs) && Nums(vs) == [1.0, 2.0, 3.0];
    ElementaryExamples(sin);
    assert AllNum([]);
  }

  /** `Plus(x, y, z)(x=0., y=1., z=2.)` is 3. */
  lemma DemoSumOfVariables(sin: real -> real)
    ensures
      var b := [Binding("x", 0.0), Binding("y", 1.0), Binding("z", 2.0)];
      Eval(Plus([Var("x", false), Var("y", false), Var("z", false)]), b, sin) == Ok(Num(3.0))
  {
    var b := [Binding("x", 0.0), Binding("y", 1.0), Binding("z", 2.0)];
    assert b[1..] == [Binding("y", 1.0), Binding("z", 2.0)];
    assert b[1..][1..] == [Binding("z", 2.0)];
    assert Lookup(b, "y") == Some(1.0);
    assert Lookup(b, "z") == Some(2.0);
    var vs := [Num(0.0), Num(1.0), Num(2.0)];
    EvalArgsOk([Var("x", false), Var("y", false), Var("z", false)], b, sin, vs);
    assert AllNum(vs) && Nums(vs) == [0.0, 1.0, 2.0];
    ElementaryExamples(sin);
  }

  /** `Plus(Sin(x), -1.)(x=p)` is `sin(p) - 1`. */
  lemma DemoSinPlusConstant(p: real, sin: real -> real)
    ensures Eval(Plus([Sin(Var("x", false)), Lit(-1.0)]), [Binding("x", p)], sin) == Ok(Num(sin(p) - 1.0))
  {
    var b := [Binding("x", p)];
    DemoSinOfBound(p, sin);
    var vs := [Num(sin(p)), Num(-1.0)];
    EvalArgsOk([Sin(Var("x", false)), Lit(-1.0)], b, sin, vs);
    EvalNode(Plus([Sin(Var("x", false)), Lit(-1.0)]), vs, b, sin);
    assert AllNum(vs) && Nums(vs) == [sin(p), -1.0];
    CombineNumbers("+", PlusFunc, false, vs, sin);
    SumPair(sin(p), -1.0);
  }

  /** `Sin(x)(x=p)` is `sin(p)`. */
  lemma DemoSinOfBound(p: real, sin: real -> real)
    ensures Eval(Sin(Var("x", false)), [Binding("x", p)], sin) == Ok(Num(sin(p)))
  {
    var b := [Binding("x", p)];
    var inner := [Num(p)];
    EvalArgsOk([Var("x", false)], b, sin, inner);
    EvalNode(Sin(Var("x", false)), inner, b, sin);
    assert AllNum(inner) && Nums(inner) == [p];
    CombineNumbers("Sin", SinFunc, false, inner, sin);
  }

  lemma SumPair(a: real, b: real)
    ensures Sum([a, b]) == a + b
  {
    assert [a][..0] == [];
    assert Sum([a]) == a;
    assert [a, b][..1] == [a];
  }
}
