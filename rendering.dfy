/**
 * The `__repr__` methods of automatic_diff.py: variables, plain `Expr` nodes
 * as `name(a,b,...)` and `InfixExpr` nodes joined by their operator and then
 * sign-folded with two `str.replace` passes. Python's `str(float)` is the
 * parameter `show`.
 */
module Rendering {
  import opened Elementary
  import opened Expressions

  /** Python's `sep.join(parts)`. */
  function Join(sep: string, parts: seq<string>): string
  {
    if |parts| == 0 then ""
    else if |parts| == 1 then parts[0]
    else parts[0] + sep + Join(sep, parts[1..])
  }

  /** Python's `s.replace(pat, rep)`: leftmost, non-overlapping occurrences, scanned left to right. */
  function Replace(s: string, pat: string, rep: string): (r: string)
    requires |pat| > 0
    ensures |rep| <= |pat| ==> |r| <= |s|
    ensures |rep| < |pat| && |r| == |s| ==> r == s
    decreases |s|
  {
    if |s| < |pat| then s
    else if s[..|pat|] == pat then rep + Replace(s[|pat|..], pat, rep)
    else [s[0]] + Replace(s[1..], pat, rep)
  }

  /** The two passes of `InfixExpr.__repr__`: `"+-"` to `"-"`, then `"--"` to `"+"`. */
  function FoldSigns(s: string): (r: string)
    ensures |r| <= |s|
    ensures |r| == |s| ==> r == s
  {
    Replace(Replace(s, "+-", "-"), "--", "+")
  }

  function SignPrefix(negative: bool): string
  {
    if negative then "-" else ""
  }

  /** `repr` of a term; a literal is `show` of its value. */
  function Repr(t: Term, show: real -> string): string
    decreases t
  {
    match t
    case Var(id, neg) => SignPrefix(neg) + id
    case Lit(x) => show(x)
    case Node(name, _, args, neg, infix) =>
      if infix then
        FoldSigns(SignPrefix(neg) + (if neg then "(" else "") + Join(name, Operands(args, show)) + (if neg then ")" else ""))
      else
        SignPrefix(neg) + name + "(" + Join(",", Reprs(args, show)) + ")"
  }

  /** `map(str, self.arguments)`. */
  function Reprs(args: seq<Term>, show: real -> string): (r: seq<string>)
    ensures |r| == |args|
    decreases args
  {
    if |args| == 0 then [] else [Repr(args[0], show)] + Reprs(args[1..], show)
  }

  /** `map(tostr, self.arguments)`: only `InfixExpr` arguments are parenthesised. */
  function Operands(args: seq<Term>, show: real -> string): (r: seq<string>)
    ensures |r| == |args|
    decreases args
  {
    if |args| == 0 then []
    else
      var a := args[0];
      [if a.Node? && a.infix then "(" + Repr(a, show) + ")" else Repr(a, show)] + Operands(args[1..], show)
  }

  /** Each operand of an `InfixExpr` is its argument's text, in parentheses exactly when that argument is an `InfixExpr`. */
  lemma {:induction false} OperandsAt(args: seq<Term>, show: real -> string)
    ensures forall i :: 0 <= i < |args| ==>
      Operands(args, show)[i] == if args[i].Node? && args[i].infix then "(" + Repr(args[i], show) + ")" else Repr(args[i], show)
    decreases args
  {
    if |args| > 0 {
      OperandsAt(args[1..], show);
      assert forall i :: 1 <= i < |args| ==> args[1..][i - 1] == args[i];
    }
  }

  /** Each part of a plain `Expr`'s argument list is its argument's text, never parenthesised. */
  lemma {:induction false} ReprsAt(args: seq<Term>, show: real -> string)
    ensures forall i :: 0 <= i < |args| ==> Reprs(args, show)[i] == Repr(args[i], show)
    decreases args
  {
    if |args| > 0 {
      ReprsAt(args[1..], show);
      assert forall i :: 1 <= i < |args| ==> args[1..][i - 1] == args[i];
    }
  }

  /** `s` contains no two adjacent minus signs. */
  predicate NoDoubleMinus(s: string)
  {
    forall i :: 0 <= i < |s| - 1 ==> !(s[i] == '-' && s[i + 1] == '-')
  }

  // ----- str.replace -----

  /** Characters that cannot start an occurrence are copied through unchanged. */
  lemma {:induction false} ReplaceSkip(a: string, b: string, pat: string, rep: string)
    requires |pat| > 0
    requires forall i :: 0 <= i < |a| ==> a[i] != pat[0]
    ensures Replace(a + b, pat, rep) == a + Replace(b, pat, rep)
    decreases |a|
  {
    if |a| == 0 {
      assert a + b == b;
    } else {
      var s := a + b;
      ReplaceSkip(a[1..], b, pat, rep);
      assert s[1..] == a[1..] + b;
      if |s| < |pat| {
        assert Replace(b, pat, rep) == b;
      } else {
        assert s[..|pat|] != pat by {
          assert s[0] == a[0];
        }
        calc {
          Replace(s, pat, rep);
          [a[0]] + Replace(a[1..] + b, pat, rep);
          [a[0]] + (a[1..] + Replace(b, pat, rep));
          { assert a == [a[0]] + a[1..]; }
          a + Replace(b, pat, rep);
        }
      }
    }
  }

  /** A string without any character of the pattern's start is left as it is. */
  lemma ReplaceIdentity(s: string, pat: string, rep: string)
    requires |pat| > 0
    requires forall i :: 0 <= i < |s| ==> s[i] != pat[0]
    ensures Replace(s, pat, rep) == s
  {
    ReplaceSkip(s, "", pat, rep);
    assert s + "" == s;
  }

  /** An occurrence at the front is replaced and scanning resumes after it. */
  lemma ReplaceAtFront(pat: string, b: string, rep: string)
    requires |pat| > 0
    ensures Replace(pat + b, pat, rep) == rep + Replace(b, pat, rep)
  {
    assert (pat + b)[..|pat|] == pat;
    assert (pat + b)[|pat|..] == b;
  }

  /** A character that does not occur in the pattern can be appended after the replacement. */
  lemma {:induction false} ReplaceAppend(u: string, c: char, pat: string, rep: string)
    requires |pat| > 0
    requires forall i :: 0 <= i < |pat| ==> pat[i] != c
    ensures Replace(u + [c], pat, rep) == Replace(u, pat, rep) + [c]
    decreases |u|
  {
    var s := u + [c];
    if |u| < |pat| <= |s| {
      AppendedCharBreaksMatch(u, c, pat);
    }
    if |s| < |pat| {
    } else if s[..|pat|] == pat {
      assert u[..|pat|] == pat;
      assert s[|pat|..] == u[|pat|..] + [c];
      ReplaceAppend(u[|pat|..], c, pat, rep);
    } else if |u| == 0 {
      assert s == [c];
      assert Replace(s[1..], pat, rep) == "";
    } else {
      assert s[1..] == u[1..] + [c];
      ReplaceAppend(u[1..], c, pat, rep);
      if |u| >= |pat| {
        assert u[..|pat|] == s[..|pat|];
      } else {
        assert Replace(u[1..], pat, rep) == u[1..];
        assert u == [u[0]] + u[1..];
      }
    }
  }

  /** An occurrence cannot end in a character the pattern does not contain. */
  lemma AppendedCharBreaksMatch(u: string, c: char, pat: string)
    requires forall i :: 0 <= i < |pat| ==> pat[i] != c
    requires |pat| == |u| + 1
    ensures (u + [c])[..|pat|] != pat
  {
    assert (u + [c])[..|pat|][|u|] == c;
  }

  /** The first character of `Replace(u, "--", "+")` is a minus only if `u` starts with a single minus. */
  lemma ReplaceMinusMinusHead(u: string)
    requires |Replace(u, "--", "+")| > 0 && Replace(u, "--", "+")[0] == '-'
    ensures |u| > 0 && u[0] == '-' && (|u| == 1 || u[1] != '-')
  {
  }

  /** After replacing `"--"` by `"+"` no two minus signs are adjacent. */
  lemma {:induction false} ReplaceMinusMinusClears(s: string)
    ensures NoDoubleMinus(Replace(s, "--", "+"))
    decreases |s|
  {
    var r := Replace(s, "--", "+");
    if |s| < 2 {
    } else if s[..2] == "--" {
      ReplaceMinusMinusClears(s[2..]);
      var tail := Replace(s[2..], "--", "+");
      assert r == "+" + tail;
      forall i | 0 <= i < |r| - 1
        ensures !(r[i] == '-' && r[i + 1] == '-')
      {
        if i > 0 {
          assert r[i] == tail[i - 1] && r[i + 1] == tail[i];
        }
      }
    } else {
      ReplaceMinusMinusClears(s[1..]);
      var tail := Replace(s[1..], "--", "+");
      assert r == [s[0]] + tail;
      forall i | 0 <= i < |r| - 1
        ensures !(r[i] == '-' && r[i + 1] == '-')
      {
        if i > 0 {
          assert r[i] == tail[i - 1] && r[i + 1] == tail[i];
        } else if r[0] == '-' && r[1] == '-' {
          ReplaceMinusMinusHead(s[1..]);
        }
      }
    }
  }

  /** Sign folding never leaves two adjacent minus signs. */
  lemma FoldSignsNoDoubleMinus(s: string)
    ensures NoDoubleMinus(FoldSigns(s))
  {
    ReplaceMinusMinusClears(Replace(s, "+-", "-"));
  }

  /**
   * The passes run in a fixed order, leftmost first, and are not idempotent:
   * `"+--"` folds to `"+"` (the other order would give `"++"`), and `"++-"`
   * keeps a `"+-"` that a second folding would still change.
   */
  lemma FoldSignsOrder()
    ensures FoldSigns("+--") == "+"
    ensures Replace(Replace("+--", "--", "+"), "+-", "-") == "++"
    ensures FoldSigns("++-") == "+-"
    ensures FoldSigns(FoldSigns("++-")) == "-"
  {
    ReplaceAtFront("+-", "-", "-");
    ReplaceAtFront("--", "", "+");
    assert "+--" == "+-" + "-";
    assert Replace("-", "+-", "-") == "-";
    assert "--" == "--" + "";
    ReplaceSkip("+", "--", "--", "+");
    ReplaceAtFront("--", "", "+");
    ReplaceAtFront("+-", "", "-");
    assert "+--" == "+" + "--";
    assert "++" == "+" + "+";
    assert Replace("+", "+-", "-") == "+";
    ReplaceIdentity("++", "--", "+");
    assert "++-" == "+" + "+-";
    ReplaceAtFront("+-", "", "-");
    assert Replace("-", "--", "+") == "-";
    ReplaceNoMatchStep('+', "-", "--", "+");
    assert "+-" == "+-" + "";
  }

  // ----- repr -----

  /** A negated `InfixExpr` renders as `-(...)`: folding leaves the wrapping intact. */
  lemma NegatedInfixWrapped(t: Term, show: real -> string)
    requires t.Node? && t.infix && t.negative
    ensures |Repr(t, show)| >= 3
    ensures Repr(t, show)[..2] == "-(" && Repr(t, show)[|Repr(t, show)| - 1] == ')'
  {
    var j := Join(t.name, Operands(t.args, show));
    assert SignPrefix(true) + "(" + j + ")" == "-(" + j + ")";
    PassKeepsWrapping(j, "+-", "-");
    var j2 := Replace(j, "+-", "-");
    PassKeepsWrapping(j2, "--", "+");
    var r := "-(" + Replace(j2, "--", "+") + ")";
    assert Repr(t, show) == r;
    assert r[..2] == "-(" && r[|r| - 1] == ')';
  }

  /** Either sign pass keeps a `-(...)` wrapping and works inside it. */
  lemma PassKeepsWrapping(j: string, pat: string, rep: string)
    requires pat == "+-" || pat == "--"
    ensures Replace("-(" + j + ")", pat, rep) == "-(" + Replace(j, pat, rep) + ")"
  {
    var s := "-(" + j + ")";
    assert s == [s[0]] + ("(" + j + ")");
    ReplaceNoMatchStep('-', "(" + j + ")", pat, rep);
    ReplaceSkip("(", j + ")", pat, rep);
    assert "(" + j + ")" == "(" + (j + [')']);
    ReplaceAppend(j, ')', pat, rep);
    assert "-(" + Replace(j, pat, rep) + ")" == "-" + ("(" + (Replace(j, pat, rep) + [')']));
  }

  /** A variable renders as its identifier, behind a minus exactly when it is negated. */
  lemma ReprVariable(id: string, neg: bool, show: real -> string)
    ensures Repr(Var(id, false), show) == id
    ensures Repr(Negate(Var(id, neg)), show) == if neg then id else "-" + id
  {
  }

  /**
   * A plain `Expr` is not sign-folded, so negating it only adds or removes
   * the leading minus.
   */
  lemma ReprPlainNode(t: Term, show: real -> string)
    requires t.Node? && !t.infix
    ensures !t.negative ==> Repr(Negate(t), show) == "-" + Repr(t, show)
    ensures t.negative ==> Repr(t, show) == "-" + Repr(Negate(t), show)
  {
    assert Negate(t).args == t.args;
  }

  /** `Plus(Sin(x), -1.)` prints as `Sin(x)-1.0`: the `"+-"` is folded. */
  lemma DemoSumWithNegativeLiteral(show: real -> string)
    requires show(-1.0) == "-1.0"
    ensures Repr(Plus([Sin(Var("x", false)), Lit(-1.0)]), show) == "Sin(x)-1.0"
  {
    var t := Plus([Sin(Var("x", false)), Lit(-1.0)]);
    DemoSumOperands(show);
    ReprInfix(t, show);
    JoinPair("+", "Sin(x)", "-1.0");
    SumWithNegativeLiteralText();
    FoldPlusMinus("Sin(x)", "1.0");
  }

  lemma SumWithNegativeLiteralText()
    ensures "Sin(x)" + "+" + "-1.0" == "Sin(x)" + "+-" + "1.0"
    ensures "Sin(x)" + "-" + "1.0" == "Sin(x)-1.0"
  {
  }

  lemma DemoSumOperands(show: real -> string)
    requires show(-1.0) == "-1.0"
    ensures Operands([Sin(Var("x", false)), Lit(-1.0)], show) == ["Sin(x)", "-1.0"]
  {
    var sinx := Sin(Var("x", false));
    assert Repr(sinx, show) == "Sin(x)" by {
      assert Repr(Var("x", false), show) == "x";
      assert [Var("x", false)][1..] == [];
      assert Reprs([Var("x", false)], show) == ["x"];
    }
    assert [sinx, Lit(-1.0)][1..] == [Lit(-1.0)];
    assert Operands([Lit(-1.0)], show) == ["-1.0"];
  }

  /** Between two sign-free operands, `+-` folds to a single `-`. */
  lemma FoldPlusMinus(a: string, b: string)
    requires forall i :: 0 <= i < |a| ==> a[i] != '+' && a[i] != '-'
    requires forall i :: 0 <= i < |b| ==> b[i] != '+' && b[i] != '-'
    requires |b| > 0
    ensures FoldSigns(a + "+-" + b) == a + "-" + b
  {
    ReplaceWithoutSecond(b, "+-", "-");
    ReplaceWithoutSecond(b, "--", "+");
    ReplaceSkip(a, "+-" + b, "+-", "-");
    ReplaceAtFront("+-", b, "-");
    assert a + "+-" + b == a + ("+-" + b);
    ReplaceSkip(a, "-" + b, "--", "+");
    ReplaceNoMatchStep('-', b, "--", "+");
    assert a + "-" + b == a + ("-" + b);
  }

  /** `-x` prints as `-x`. */
  lemma DemoNegatedVariable(show: real -> string)
    ensures Repr(Negate(Var("x", false)), show) == "-x"
  {
  }

  /** `-Plus(x, y, z)` prints as `-(x+y+z)`, and `-x` as `-x`. */
  lemma DemoNegatedSum(show: real -> string)
    ensures Repr(Negate(Plus([Var("x", false), Var("y", false), Var("z", false)])), show) == "-(x+y+z)"
    ensures Repr(Negate(Var("x", false)), show) == "-x"
  {
    DemoNegatedVariable(show);
    var t := Negate(Plus([Var("x", false), Var("y", false), Var("z", false)]));
    DemoVariableOperands(show);
    ReprInfix(t, show);
    JoinTriple("+", "x", "y", "z");
    NegatedSumText();
    FoldNegatedSum();
  }

  lemma DemoVariableOperands(show: real -> string)
    ensures Operands([Var("x", false), Var("y", false), Var("z", false)], show) == ["x", "y", "z"]
  {
    var xyz := [Var("x", false), Var("y", false), Var("z", false)];
    assert Repr(Var("x", false), show) == "x";
    assert Repr(Var("y", false), show) == "y";
    assert Repr(Var("z", false), show) == "z";
    assert [Var("z", false)][1..] == [];
    assert Operands([Var("z", false)], show) == ["z"];
    assert xyz[1..] == [Var("y", false), Var("z", false)];
    assert [Var("y", false), Var("z", false)][1..] == [Var("z", false)];
    assert Operands(xyz[1..], show) == ["y", "z"];
  }

  lemma NegatedSumText()
    ensures "-(" + ("x" + "+" + "y" + "+" + "z") + ")" == "-(x+y+z)"
  {
  }

  lemma FoldNegatedSum()
    ensures FoldSigns("-(x+y+z)") == "-(x+y+z)"
  {
    var b := "(x+y+z)";
    ReplaceWithoutSecond(b, "+-", "-");
    ReplaceWithoutSecond(b, "--", "+");
    ReplaceNoMatchStep('-', b, "+-", "-");
    ReplaceNoMatchStep('-', b, "--", "+");
    assert "-(x+y+z)" == "-" + b;
  }

  /** A string in which the pattern's second character never occurs is left as it is. */
  lemma {:induction false} ReplaceWithoutSecond(s: string, pat: string, rep: string)
    requires |pat| == 2
    requires forall i :: 0 <= i < |s| ==> s[i] != pat[1]
    ensures Replace(s, pat, rep) == s
    decreases |s|
  {
    if |s| >= 2 {
      assert s[..2][1] == s[1];
      ReplaceWithoutSecond(s[1..], pat, rep);
      assert s == [s[0]] + s[1..];
    }
  }

  /** One character that does not start an occurrence is copied through. */
  lemma ReplaceNoMatchStep(c: char, s: string, pat: string, rep: string)
    requires |pat| == 2 && |s| > 0
    requires c != pat[0] || s[0] != pat[1]
    ensures Replace([c] + s, pat, rep) == [c] + Replace(s, pat, rep)
  {
    var t := [c] + s;
    assert t[..2][0] == c && t[..2][1] == s[0];
    assert t[1..] == s;
  }

  /** An `InfixExpr` is its sign-folded joined operands, wrapped as `-(...)` when negated. */
  lemma ReprInfix(t: Term, show: real -> string)
    requires t.Node? && t.infix
    ensures var j := Join(t.name, Operands(t.args, show));
      Repr(t, show) == FoldSigns(if t.negative then "-(" + j + ")" else j)
  {
    var j := Join(t.name, Operands(t.args, show));
    var text := SignPrefix(t.negative) + (if t.negative then "(" else "") + j + (if t.negative then ")" else "");
    assert Repr(t, show) == FoldSigns(text);
    if t.negative {
      assert text == "-(" + j + ")";
    } else {
      assert text == j;
    }
  }

  /** No rendered `InfixExpr` contains two adjacent minus signs, whatever its operands print as. */
  lemma InfixReprNoDoubleMinus(t: Term, show: real -> string)
    requires t.Node? && t.infix
    ensures NoDoubleMinus(Repr(t, show))
  {
    var j := Join(t.name, Operands(t.args, show));
    ReprInfix(t, show);
    FoldSignsNoDoubleMinus(if t.negative then "-(" + j + ")" else j);
  }

  lemma JoinPair(sep: string, a: string, b: string)
    ensures Join(sep, [a, b]) == a + sep + b
  {
    assert [a, b][1..] == [b];
  }

  lemma JoinTriple(sep: string, a: string, b: string, c: string)
    ensures Join(sep, [a, b, c]) == a + sep + b + sep + c
  {
    assert [a, b, c][1..] == [b, c];
    JoinPair(sep, b, c);
  }
}
