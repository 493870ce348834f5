/** The `differentiate` rule set of expressions/expressions.py and its use
    with `postvisitor`: one rule per node kind, applied to the node and to
    the derivatives of its operands, building a fresh, unsimplified tree. */
module Differentiation {
  import opened Expressions
  import opened Visitor

  /** The exception of the fallback rule, for a node kind with no rule of
      its own: `type(expr).__name__` of the bare Terminal class. */
  const NoRule: Error := NotImplementedError("Cannot differentiate a " + "Terminal")

  /** One rule: `e` is the node, `o` the derivatives of its operands (with
      respect to the symbol named `v`), in operand order.  The rules build
      their results with the operator sugar, exactly as written. */
  function DiffNode(e: Expr, o: seq<Expr>, v: string): (r: Result<Expr>)
    requires |o| == |Operands(e)|
    ensures e.Number? ==> r == Ok(Number(0))
    ensures e.Symbol? ==> r == Ok(Number(if e.name == v then 1 else 0))
    ensures r.Err? <==> e.Terminal?
    ensures r.Err? ==> r.error == NoRule
    ensures e.Add? ==> r == Ok(Add(o[0], o[1]))
    ensures e.Sub? ==> r == Ok(Sub(o[0], o[1]))
    ensures e.Mul? ==> r == Ok(Add(Mul(o[0], e.right), Mul(o[1], e.left)))
    ensures e.Div? ==> r == Ok(Div(Sub(Mul(o[0], e.right), Mul(e.left, o[1])), Pow(e.right, Number(2))))
    ensures e.Pow? ==> r == Ok(Mul(Mul(e.right, Pow(e.left, Sub(e.right, Number(1)))), o[0]))
  {
    match e
    case Number(_) => Ok(Number(0))
    case Symbol(s) => if s == v then Ok(Number(1)) else Ok(Number(0))
    case Terminal(_) => Err(NoRule)
    case Add(_, _) => Ok(Apply(AddOp, o[0], Expression(o[1])))
    case Sub(_, _) => Ok(Apply(SubOp, o[0], Expression(o[1])))
    case Mul(a, b) =>
      Ok(Apply(AddOp, Apply(MulOp, o[0], Expression(b)), Expression(Apply(MulOp, o[1], Expression(a)))))
    case Div(a, b) =>
      var numerator := Apply(SubOp, Apply(MulOp, o[0], Expression(b)), Expression(Apply(MulOp, a, Expression(o[1]))));
      Ok(Apply(DivOp, numerator, Expression(Apply(PowOp, b, Expression(Number(2))))))
    case Pow(a, b) =>
      // the exponent is assumed not to depend on the symbol
      var lowered := Apply(PowOp, a, Expression(Apply(SubOp, b, RawNumber(1))));
      Ok(Apply(MulOp, Apply(MulOp, b, Expression(lowered)), Expression(o[0])))
  }

  predicate AllOk(rs: seq<Result<Expr>>) {
    forall k :: 0 <= k < |rs| ==> rs[k].Ok?
  }

  /** A failure among the operand results, the leftmost one.  The source
      visits the right operand first, but the only failure a rule raises is
      NoRule, so which one is passed on does not change the result. */
  function FirstErr(rs: seq<Result<Expr>>): (r: Result<Expr>)
    requires !AllOk(rs)
    ensures r.Err? && r in rs
  {
    if rs[0].Err? then rs[0] else FirstErr(rs[1..])
  }

  function Values(rs: seq<Result<Expr>>): (vs: seq<Expr>)
    requires AllOk(rs)
    ensures |vs| == |rs| && forall k :: 0 <= k < |rs| ==> vs[k] == rs[k].value
  {
    seq(|rs|, k requires 0 <= k < |rs| => rs[k].value)
  }

  /** A rule as `postvisitor` runs it: an exception raised for an operand
      has already ended the traversal, which the result type represents by
      passing the failure on. */
  function Combine(e: Expr, rs: seq<Result<Expr>>, v: string): (r: Result<Expr>)
    requires |rs| == |Operands(e)|
    ensures r.Err? <==> e.Terminal? || !AllOk(rs)
    ensures r.Err? ==> r in rs || r == Err(NoRule)
  {
    if AllOk(rs) then DiffNode(e, Values(rs), v) else FirstErr(rs)
  }

  /** The derivative, by structural recursion. */
  function Deriv(e: Expr, v: string): Result<Expr> {
    if IsOperator(e) then Combine(e, [Deriv(e.left, v), Deriv(e.right, v)], v)
    else Combine(e, [], v)
  }

  // ---------------------------------------------------------------------
  // Properties of the derivative

  predicate HasTerminal(e: Expr) {
    match e
    case Number(_) => false
    case Symbol(_) => false
    case Terminal(_) => true
    case _ => HasTerminal(e.left) || HasTerminal(e.right)
  }

  function Symbols(e: Expr): set<string> {
    match e
    case Number(_) => {}
    case Symbol(s) => {s}
    case Terminal(_) => {}
    case _ => Symbols(e.left) + Symbols(e.right)
  }

  /** Differentiation fails exactly on trees holding a bare Terminal, and
      then with the fallback rule's exception. */
  lemma {:induction false} DerivFailsIffTerminal(e: Expr, v: string)
    ensures Deriv(e, v).Err? <==> HasTerminal(e)
    ensures Deriv(e, v).Err? ==> Deriv(e, v).error == NoRule
  {
    if IsOperator(e) {
      DerivFailsIffTerminal(e.left, v);
      DerivFailsIffTerminal(e.right, v);
      var rs := [Deriv(e.left, v), Deriv(e.right, v)];
      assert Deriv(e, v) == Combine(e, rs, v);
      assert HasTerminal(e) <==> HasTerminal(e.left) || HasTerminal(e.right);
      if AllOk(rs) {
        assert rs[0].Ok? && rs[1].Ok?;
        assert !HasTerminal(e);
      } else {
        assert FirstErr(rs) in rs;
        assert HasTerminal(e);
      }
    }
  }

  /** The rules introduce no symbol: a derivative mentions only symbols of
      the expression it came from. */
  lemma {:induction false} DerivSymbols(e: Expr, v: string)
    ensures Deriv(e, v).Ok? ==> Symbols(Deriv(e, v).value) <= Symbols(e)
  {
    if IsOperator(e) {
      DerivSymbols(e.left, v);
      DerivSymbols(e.right, v);
      var rs := [Deriv(e.left, v), Deriv(e.right, v)];
      if AllOk(rs) {
        assert rs[0].Ok? && rs[1].Ok?;
        assert Values(rs) == [rs[0].value, rs[1].value];
        DiffNodeSymbols(e, Values(rs), v);
      } else {
        assert FirstErr(rs).Err?;
      }
    }
  }

  lemma DiffNodeSymbols(e: Expr, o: seq<Expr>, v: string)
    requires |o| == |Operands(e)|
    requires forall k :: 0 <= k < |o| ==> Symbols(o[k]) <= Symbols(Operands(e)[k])
    ensures DiffNode(e, o, v).Ok? ==> Symbols(DiffNode(e, o, v).value) <= Symbols(e)
  {
    if IsOperator(e) {
      var a, b := Symbols(e.left), Symbols(e.right);
      assert Symbols(o[0]) <= a && Symbols(o[1]) <= b;
      assert Symbols(e) == a + b;
      match e
      case Pow(l, r) =>
        var factor := Mul(r, Pow(l, Sub(r, Number(1))));
        assert Symbols(Sub(r, Number(1))) == b;
        assert Symbols(Pow(l, Sub(r, Number(1)))) == a + b;
        assert Symbols(factor) == a + b;
        assert DiffNode(e, o, v).value == Mul(factor, o[0]);
      case Div(l, r) =>
        var numerator := Sub(Mul(o[0], r), Mul(l, o[1]));
        assert Symbols(numerator) <= a + b;
        assert Symbols(Pow(r, Number(2))) == b;
        assert DiffNode(e, o, v).value == Div(numerator, Pow(r, Number(2)));
      case _ =>
    }
  }

  /** A derivative with respect to a symbol the expression does not
      mention still has that shape, unsimplified: no rule looks at `v`
      except the Symbol rule, so renaming `v` to another absent symbol
      changes nothing. */
  lemma {:induction false} DerivAbsentSymbol(e: Expr, v: string, w: string)
    requires v !in Symbols(e) && w !in Symbols(e)
    ensures Deriv(e, v) == Deriv(e, w)
  {
    if IsOperator(e) {
      DerivAbsentSymbol(e.left, v, w);
      DerivAbsentSymbol(e.right, v, w);
    }
  }

  /** An unsimplified zero: a tree built from 0 by 0 + 0, 0 - 0, 0 * t,
      t * 0 and 0 / t.  It is 0 whatever its symbols stand for, except that
      a `0 / t` is undefined where `t` is 0. */
  predicate ZeroForm(e: Expr) {
    match e
    case Number(n) => n == 0
    case Add(a, b) => ZeroForm(a) && ZeroForm(b)
    case Sub(a, b) => ZeroForm(a) && ZeroForm(b)
    case Mul(a, b) => ZeroForm(a) || ZeroForm(b)
    case Div(a, _) => ZeroForm(a)
    case _ => false
  }

  /** The derivative with respect to a symbol the expression does not
      mention is a zero in that sense: the rules never simplify, but every
      term they build carries a zero factor. */
  lemma {:induction false} DerivOfConstant(e: Expr, v: string)
    requires v !in Symbols(e) && !HasTerminal(e)
    ensures Deriv(e, v).Ok? && ZeroForm(Deriv(e, v).value)
  {
    if IsOperator(e) {
      DerivOfConstant(e.left, v);
      DerivOfConstant(e.right, v);
      var rs := [Deriv(e.left, v), Deriv(e.right, v)];
      assert AllOk(rs);
      var o := Values(rs);
      assert o == [rs[0].value, rs[1].value];
      assert Deriv(e, v) == DiffNode(e, o, v);
      DiffNodeZero(e, o, v);
    }
  }

  lemma DiffNodeZero(e: Expr, o: seq<Expr>, v: string)
    requires IsOperator(e) && |o| == 2 && ZeroForm(o[0]) && ZeroForm(o[1])
    ensures DiffNode(e, o, v).Ok? && ZeroForm(DiffNode(e, o, v).value)
  {
  }

  /** d(x * x)/dx is built as 1 * x + 1 * x, and d(x ^ 3)/dx as
      3 * x ^ (3 - 1) * 1. */
  lemma DerivExamples()
    ensures Deriv(Mul(Symbol("x"), Symbol("x")), "x")
         == Ok(Add(Mul(Number(1), Symbol("x")), Mul(Number(1), Symbol("x"))))
    ensures Deriv(Pow(Symbol("x"), Number(3)), "x")
         == Ok(Mul(Mul(Number(3), Pow(Symbol("x"), Sub(Number(3), Number(1)))), Number(1)))
  {
    var x := Symbol("x");
    assert Deriv(x, "x") == Ok(Number(1));
    assert Deriv(Number(3), "x") == Ok(Number(0));
    var rs := [Ok(Number(1)), Ok(Number(1))];
    assert AllOk(rs) && Values(rs) == [Number(1), Number(1)];
    var ps := [Ok(Number(1)), Ok(Number(0))];
    assert AllOk(ps) && Values(ps) == [Number(1), Number(0)];
  }

  // ---------------------------------------------------------------------
  // Differentiation through the visitor

  /** `differentiate` with `var = v`, as the combining function handed to
      `postvisitor` over an arena. */
  function DiffFn(arena: seq<Node>, v: string): (nat, seq<Result<Expr>>) --> Result<Expr> {
    (i: nat, rs: seq<Result<Expr>>)
      requires Acyclic(arena) && WellFormed(arena) && i < |arena| && |rs| == |arena[i].operands|
      => Combine(ToExpr(arena, i), rs, v)
  }

  lemma DiffFnDefined(arena: seq<Node>, v: string)
    requires Acyclic(arena) && WellFormed(arena)
    ensures Defined(arena, DiffFn(arena, v))
  {
  }

  /** The post-order fold of the rules is the recursive derivative. */
  lemma {:induction false} FoldIsDeriv(arena: seq<Node>, v: string, i: nat)
    requires Acyclic(arena) && WellFormed(arena) && i < |arena|
    ensures Defined(arena, DiffFn(arena, v)) && Fold(arena, DiffFn(arena, v), i) == Deriv(ToExpr(arena, i), v)
    decreases i
  {
    DiffFnDefined(arena, v);
    var f := DiffFn(arena, v);
    var e := ToExpr(arena, i);
    var ops := arena[i].operands;
    var rs := OperandResults(arena, f, i);
    ToExprOperands(arena, i);
    forall k | 0 <= k < |ops| ensures rs[k] == Deriv(Operands(e)[k], v) {
      FoldIsDeriv(arena, v, ops[k]);
    }
    if IsOperator(e) {
      assert rs == [Deriv(e.left, v), Deriv(e.right, v)];
    } else {
      assert rs == [];
    }
  }

  /** `postvisitor(expr, differentiate, var=v)`. */
  method Differentiate(arena: seq<Node>, root: nat, v: string) returns (r: Result<Expr>)
    requires Acyclic(arena) && WellFormed(arena) && root < |arena|
    ensures r == Deriv(ToExpr(arena, root), v)
  {
    DiffFnDefined(arena, v);
    ghost var calls, trace;
    r, calls, trace := PostVisit(arena, root, DiffFn(arena, v));
    FoldIsDeriv(arena, v, root);
  }
}
