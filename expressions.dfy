/** The expression tree of expressions/expressions.py: its node kinds, the
    operator sugar that builds nodes, the precedence table and rendering. */
module Expressions {

  /** The two exceptions the core raises. */
  datatype Error =
    | TypeError(message: string)
    | NotImplementedError(message: string)

  datatype Result<T> = Ok(value: T) | Err(error: Error)

  /** An expression node.  `Terminal` is the bare Terminal base class: it
      renders as its payload and binds tightest, like Number and Symbol, but
      no differentiation rule is registered for it. */
  datatype Expr =
    | Number(value: int)
    | Symbol(name: string)
    | Terminal(payload: string)
    | Add(left: Expr, right: Expr)
    | Sub(left: Expr, right: Expr)
    | Mul(left: Expr, right: Expr)
    | Div(left: Expr, right: Expr)
    | Pow(left: Expr, right: Expr)

  /** The five operator classes, as a tag. */
  datatype BinOp = AddOp | SubOp | MulOp | DivOp | PowOp

  /** A raw Python value that is not an Expression, as it reaches a
      reflected operator (`other + e`) or the Number constructor. */
  datatype Scalar = Numeric(n: int) | NonNumeric(typeName: string)

  /** The right-hand side of a forward operator (`e + other`): another
      expression or a raw number, which is promoted to a Number. */
  datatype Operand = Expression(expr: Expr) | RawNumber(n: int)

  predicate IsOperator(e: Expr) {
    e.Add? || e.Sub? || e.Mul? || e.Div? || e.Pow?
  }

  /** The operator node of kind `op` with operands `a` and `b`, in that order. */
  function Build(op: BinOp, a: Expr, b: Expr): Expr {
    match op
    case AddOp => Add(a, b)
    case SubOp => Sub(a, b)
    case MulOp => Mul(a, b)
    case DivOp => Div(a, b)
    case PowOp => Pow(a, b)
  }

  /** The `operands` tuple: empty for a terminal, left then right for an
      operator. */
  function Operands(e: Expr): (os: seq<Expr>)
    ensures |os| == if IsOperator(e) then 2 else 0
    ensures IsOperator(e) ==> os[0] == e.left && os[1] == e.right
  {
    if IsOperator(e) then [e.left, e.right] else []
  }

  /** The kind of an operator node. */
  function OpOf(e: Expr): (op: BinOp)
    requires IsOperator(e)
    ensures Build(op, e.left, e.right) == e
  {
    match e
    case Add(_, _) => AddOp
    case Sub(_, _) => SubOp
    case Mul(_, _) => MulOp
    case Div(_, _) => DivOp
    case Pow(_, _) => PowOp
  }

  /** Class attribute `precedence`: terminals 0, Pow 1, Mul and Div 2,
      Add and Sub 3; a larger number binds more loosely. */
  function Precedence(e: Expr): (p: nat)
    ensures p == 0 <==> !IsOperator(e)
    ensures p <= 3
  {
    match e
    case Number(_) => 0
    case Symbol(_) => 0
    case Terminal(_) => 0
    case Pow(_, _) => 1
    case Mul(_, _) => 2
    case Div(_, _) => 2
    case Add(_, _) => 3
    case Sub(_, _) => 3
  }

  /** Class attribute `exp_symbol`. */
  function OpSymbol(e: Expr): (sym: string)
    requires IsOperator(e)
    ensures |sym| == 1 && sym[0] != '(' && sym[0] != ')' && sym[0] != ' '
  {
    match e
    case Add(_, _) => "+"
    case Sub(_, _) => "-"
    case Mul(_, _) => "*"
    case Div(_, _) => "/"
    case Pow(_, _) => "^"
  }

  // ---------------------------------------------------------------------
  // Construction

  /** `Number(value)`: refuses a payload that is not a number. */
  function NumberOf(v: Scalar): (r: Result<Expr>)
    ensures r.Ok? <==> v.Numeric?
    ensures r.Ok? ==> r.value == Number(v.n)
    ensures r.Err? ==> r.error.TypeError? && |r.error.message| > 0
  {
    match v
    case Numeric(n) => Ok(Number(n))
    case NonNumeric(t) =>
      // `type(Number).__name__` is the name of the metaclass, "type"
      Err(TypeError("Val input of type: " + t + "Expected val of type " + "type" + "."))
  }

  /** The value a forward operator uses as its right operand. */
  function Promote(other: Operand): Expr {
    match other
    case Expression(e) => e
    case RawNumber(n) => Number(n)
  }

  /** `self op other` (`__add__`, `__sub__`, `__mul__`, `__truediv__`,
      `__pow__`): the node of kind `op` with `self` on the left. */
  function Apply(op: BinOp, self: Expr, other: Operand): (r: Expr)
    ensures IsOperator(r) && OpOf(r) == op
    ensures r.left == self
    ensures other.Expression? ==> r.right == other.expr
    ensures other.RawNumber? ==> r.right == Number(other.n)
  {
    Build(op, self, Promote(other))
  }

  /** `other op self` where `other` is not an Expression (`__radd__`,
      `__rsub__`, `__rmul__`, `__rtruediv__`, `__rpow__`): `other` is
      converted by the Number constructor, which may fail. */
  function ApplyReflected(op: BinOp, self: Expr, other: Scalar): (r: Result<Expr>)
    ensures r.Ok? <==> other.Numeric?
    ensures r.Ok? ==> IsOperator(r.value) && OpOf(r.value) == op
    ensures r.Ok? ==> r.value.left == Number(other.n) && r.value.right == self
    ensures r.Err? ==> r.error.TypeError?
  {
    match NumberOf(other)
    case Ok(n) => Ok(Build(op, n, self))
    case Err(err) => Err(err)
  }

  /** Operand order is kept: swapping two different operands gives a
      different node, so `a - b` and `b - a` differ. */
  lemma ApplyKeepsOrder(op: BinOp, a: Expr, b: Expr)
    ensures Apply(op, a, Expression(b)) == Apply(op, b, Expression(a)) <==> a == b
  {
  }

  // ---------------------------------------------------------------------
  // Rendering of numbers (Python `str` of an int)

  function Digit(d: nat): char
    requires d < 10
  {
    "0123456789"[d]
  }

  predicate IsDigit(c: char) {
    '0' <= c <= '9'
  }

  function NatToString(n: nat): (s: string)
    ensures |s| > 0 && forall i :: 0 <= i < |s| ==> IsDigit(s[i])
  {
    if n < 10 then [Digit(n)] else NatToString(n / 10) + [Digit(n % 10)]
  }

  function IntToString(n: int): (s: string)
    ensures |s| > 0
  {
    if n < 0 then "-" + NatToString(-n) else NatToString(n)
  }

  function DigitValue(c: char): nat
    requires IsDigit(c)
  {
    c as int - '0' as int
  }

  /** Reads a decimal numeral back; the partner of NatToString. */
  function ParseNat(s: string): nat
    requires forall i :: 0 <= i < |s| ==> IsDigit(s[i])
  {
    if |s| == 0 then 0
    else ParseNat(s[..|s| - 1]) * 10 + DigitValue(s[|s| - 1])
  }

  function ParseInt(s: string): int
    requires |s| > 0
    requires forall i :: 0 < i < |s| ==> IsDigit(s[i])
    requires s[0] == '-' || IsDigit(s[0])
  {
    if s[0] == '-' then -(ParseNat(s[1..]) as int) else ParseNat(s)
  }

  lemma {:induction false} NatToStringRoundTrip(n: nat)
    ensures ParseNat(NatToString(n)) == n
  {
    var s := NatToString(n);
    if n >= 10 {
      NatToStringRoundTrip(n / 10);
      assert s[..|s| - 1] == NatToString(n / 10);
    }
  }

  /** The numeral a Number renders as reads back as its value. */
  lemma IntToStringRoundTrip(n: int)
    ensures var s := IntToString(n);
      && (s[0] == '-' || IsDigit(s[0]))
      && (forall i :: 0 < i < |s| ==> IsDigit(s[i]))
      && ParseInt(s) == n
  {
    var s := IntToString(n);
    if n < 0 {
      assert s[1..] == NatToString(-n);
      NatToStringRoundTrip(-n);
    } else {
      NatToStringRoundTrip(n);
    }
  }

  // ---------------------------------------------------------------------
  // Rendering of expressions (`__str__`)

  /** `str(e)`: a terminal renders as its payload; an operator node as
      `left op right`, with each operand as OperandText gives it. */
  function Render(e: Expr): (r: string)
    ensures e.Number? ==> r == IntToString(e.value)
    ensures e.Symbol? ==> r == e.name
    ensures e.Terminal? ==> r == e.payload
    decreases e, 1
  {
    match e
    case Number(n) => IntToString(n)
    case Symbol(s) => s
    case Terminal(s) => s
    case _ =>
      OperandText(e.left, Precedence(e)) + " " + OpSymbol(e) + " " + OperandText(e.right, Precedence(e))
  }

  /** An operand of a node of precedence `p`: in parentheses exactly when
      its own precedence is strictly greater than `p`. */
  function OperandText(x: Expr, p: nat): string
    decreases x, 2
  {
    if Precedence(x) > p then "(" + Render(x) + ")" else Render(x)
  }

  /** An operand is wrapped in parentheses if and only if it binds more
      loosely than its parent, and otherwise appears as it renders alone. */
  lemma OperandTextWrapped(x: Expr, p: nat)
    ensures OperandText(x, p) == "(" + Render(x) + ")" <==> Precedence(x) > p
    ensures OperandText(x, p) == Render(x) <==> Precedence(x) <= p
  {
    var r := Render(x);
    assert |"(" + r + ")"| == |r| + 2;
  }

  // ---------------------------------------------------------------------
  // Parentheses in rendered text

  /** Opening minus closing parentheses in `s`. */
  function Depth(s: string): int {
    if |s| == 0 then 0
    else Depth(s[..|s| - 1]) + (if s[|s| - 1] == '(' then 1 else if s[|s| - 1] == ')' then -1 else 0)
  }

  /** Every prefix closes no more parentheses than it opened, and all that
      are opened are closed. */
  predicate Balanced(s: string) {
    && Depth(s) == 0
    && forall k :: 0 <= k <= |s| ==> Depth(s[..k]) >= 0
  }

  predicate ParenFree(s: string) {
    forall i :: 0 <= i < |s| ==> s[i] != '(' && s[i] != ')'
  }

  /** Every payload in `e` is free of parentheses (numerals always are). */
  predicate PayloadsParenFree(e: Expr) {
    match e
    case Number(_) => true
    case Symbol(s) => ParenFree(s)
    case Terminal(s) => ParenFree(s)
    case _ => PayloadsParenFree(e.left) && PayloadsParenFree(e.right)
  }

  lemma {:induction false} DepthAppend(a: string, b: string)
    ensures Depth(a + b) == Depth(a) + Depth(b)
  {
    if |b| > 0 {
      var b' := b[..|b| - 1];
      assert (a + b)[..|a + b| - 1] == a + b';
      DepthAppend(a, b');
    } else {
      assert a + b == a;
    }
  }

  lemma {:induction false} ParenFreeBalanced(s: string)
    requires ParenFree(s)
    ensures Balanced(s)
    ensures forall k :: 0 <= k <= |s| ==> Depth(s[..k]) == 0
  {
    if |s| > 0 {
      var s' := s[..|s| - 1];
      ParenFreeBalanced(s');
      forall k | 0 <= k <= |s|
        ensures Depth(s[..k]) == 0
      {
        if k < |s| {
          assert s[..k] == s'[..k];
        } else {
          assert s[..k] == s;
        }
      }
    }
  }

  lemma BalancedAppend(a: string, b: string)
    requires Balanced(a) && Balanced(b)
    ensures Balanced(a + b)
  {
    DepthAppend(a, b);
    forall k | 0 <= k <= |a + b|
      ensures Depth((a + b)[..k]) >= 0
    {
      if k <= |a| {
        assert (a + b)[..k] == a[..k];
      } else {
        assert (a + b)[..k] == a + b[..k - |a|];
        DepthAppend(a, b[..k - |a|]);
      }
    }
  }

  lemma BalancedWrap(a: string)
    requires Balanced(a)
    ensures Balanced("(" + a + ")")
  {
    var w := "(" + a + ")";
    DepthAppend("(", a);
    DepthAppend("(" + a, ")");
    forall k | 0 <= k <= |w|
      ensures Depth(w[..k]) >= 0
    {
      if k == 0 {
      } else if k <= |a| + 1 {
        assert w[..k] == "(" + a[..k - 1];
        DepthAppend("(", a[..k - 1]);
      } else {
        assert w[..k] == w;
      }
    }
  }

  lemma NumeralParenFree(n: int)
    ensures ParenFree(IntToString(n))
  {
    IntToStringRoundTrip(n);
    var s := IntToString(n);
    forall i | 0 <= i < |s| ensures s[i] != '(' && s[i] != ')' {
      if i > 0 { assert IsDigit(s[i]); }
    }
  }

  /** An operand's text, parenthesised or not, is balanced when the
      operand's own rendering is. */
  lemma BalancedOperand(x: Expr, p: nat)
    requires Balanced(Render(x))
    ensures Balanced(OperandText(x, p))
  {
    if Precedence(x) > p { BalancedWrap(Render(x)); }
  }

  lemma BalancedJoin(a: string, sym: string, b: string)
    requires Balanced(a) && Balanced(b) && ParenFree(sym)
    ensures Balanced(a + " " + sym + " " + b)
  {
    var mid := " " + sym + " ";
    assert ParenFree(mid);
    ParenFreeBalanced(mid);
    BalancedAppend(a, mid);
    BalancedAppend(a + mid, b);
    assert a + " " + sym + " " + b == (a + mid) + b;
  }

  /** Rendering keeps parentheses balanced, whatever the tree. */
  lemma {:induction false} RenderBalanced(e: Expr)
    requires PayloadsParenFree(e)
    ensures Balanced(Render(e))
  {
    match e
    case Number(n) =>
      NumeralParenFree(n);
      ParenFreeBalanced(IntToString(n));
    case Symbol(s) => ParenFreeBalanced(s);
    case Terminal(s) => ParenFreeBalanced(s);
    case _ =>
      var p, sym := Precedence(e), OpSymbol(e);
      RenderBalanced(e.left);
      RenderBalanced(e.right);
      BalancedOperand(e.left, p);
      BalancedOperand(e.right, p);
      assert ParenFree(sym);
      BalancedJoin(OperandText(e.left, p), sym, OperandText(e.right, p));
      assert Render(e) == OperandText(e.left, p) + " " + sym + " " + OperandText(e.right, p);
  }

  /** `(a + b) * c` and `a + b * c`: a looser operand is parenthesised, a
      tighter one is not. */
  lemma RenderExamples()
    ensures Render(Mul(Add(Symbol("a"), Symbol("b")), Symbol("c"))) == "(a + b) * c"
    ensures Render(Add(Symbol("a"), Mul(Symbol("b"), Symbol("c")))) == "a + b * c"
  {
    assert Render(Add(Symbol("a"), Symbol("b"))) == "a + b";
    assert Render(Mul(Symbol("b"), Symbol("c"))) == "b * c";
  }

  /** An operand of the same precedence as its parent is never
      parenthesised, on either side, so the rendering drops the grouping of
      a right-nested `-` or `/` and of a left-nested `^`: `a - (b + c)`
      reads as `a - b + c`, `a - (b - c)` as `a - b - c`, `a / (b * c)` as
      `a / b * c`, and `(a ^ b) ^ c` as `a ^ b ^ c`. */
  lemma RenderLosesGrouping(a: Expr, b: Expr, c: Expr)
    ensures Render(Sub(a, Add(b, c))) == Render(Add(Sub(a, b), c))
    ensures Render(Sub(a, Sub(b, c))) == Render(Sub(Sub(a, b), c))
    ensures Render(Div(a, Mul(b, c))) == Render(Mul(Div(a, b), c))
    ensures Render(Pow(Pow(a, b), c)) == Render(Pow(a, Pow(b, c)))
  {
    RegroupSubAdd(a, b, c);
    RegroupSubSub(a, b, c);
    RegroupDivMul(a, b, c);
    RegroupPowPow(a, b, c);
  }

  lemma RegroupSubAdd(a: Expr, b: Expr, c: Expr)
    ensures Render(Sub(a, Add(b, c))) == Render(Add(Sub(a, b), c))
  {
    var ta, tb, tc := OperandText(a, 3), OperandText(b, 3), OperandText(c, 3);
    assert OperandText(Add(b, c), 3) == tb + " + " + tc;
    assert OperandText(Sub(a, b), 3) == ta + " - " + tb;
    JoinAssoc(ta, "-", tb, "+", tc);
  }

  lemma RegroupSubSub(a: Expr, b: Expr, c: Expr)
    ensures Render(Sub(a, Sub(b, c))) == Render(Sub(Sub(a, b), c))
  {
    var ta, tb, tc := OperandText(a, 3), OperandText(b, 3), OperandText(c, 3);
    assert OperandText(Sub(b, c), 3) == tb + " - " + tc;
    assert OperandText(Sub(a, b), 3) == ta + " - " + tb;
    JoinAssoc(ta, "-", tb, "-", tc);
  }

  lemma RegroupDivMul(a: Expr, b: Expr, c: Expr)
    ensures Render(Div(a, Mul(b, c))) == Render(Mul(Div(a, b), c))
  {
    var ta, tb, tc := OperandText(a, 2), OperandText(b, 2), OperandText(c, 2);
    assert OperandText(Mul(b, c), 2) == tb + " * " + tc;
    assert OperandText(Div(a, b), 2) == ta + " / " + tb;
    JoinAssoc(ta, "/", tb, "*", tc);
  }

  lemma RegroupPowPow(a: Expr, b: Expr, c: Expr)
    ensures Render(Pow(Pow(a, b), c)) == Render(Pow(a, Pow(b, c)))
  {
    var ta, tb, tc := OperandText(a, 1), OperandText(b, 1), OperandText(c, 1);
    assert OperandText(Pow(a, b), 1) == ta + " ^ " + tb;
    assert OperandText(Pow(b, c), 1) == tb + " ^ " + tc;
    JoinAssoc(ta, "^", tb, "^", tc);
  }

  lemma JoinAssoc(x: string, s: string, y: string, s': string, z: string)
    ensures x + " " + s + " " + (y + " " + s' + " " + z) == (x + " " + s + " " + y) + " " + s' + " " + z
  {
  }
}
