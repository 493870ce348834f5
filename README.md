# Symbolic expressions, post-order visiting and differentiation

This is a Dafny model of `expressions/expressions.py`, a small library of
symbolic expression trees. The file has three layers:

- **The expression tree** (`expressions.dfy`, module `Expressions`).
  - `Expr` covers `Number`, `Symbol`, the bare `Terminal` class, and the five
    binary operators `Add`, `Sub`, `Mul`, `Div` and `Pow`.
  - The operator sugar is modelled by `Apply` (`e op other`) and
    `ApplyReflected` (`other op e`). A forward operator promotes a raw number
    to a `Number`. A reflected operator always calls the `Number`
    constructor, which refuses a payload that is not a number.
  - `Precedence` and `OpSymbol` hold the precedence table and the operator
    symbols.
  - `Render` is `str()`. An operand is parenthesised exactly when its
    precedence is strictly greater than that of its parent.
- **The iterative `postvisitor`** (`visitor.dfy`, module `Visitor`).
  - Nodes live in an arena, a sequence of nodes. Each node names its
    operands by index, and every operand index is smaller than the node's
    own index. Node identity is the index, just as `visited` in the source
    is keyed on object identity, so a shared subexpression appears once in
    the arena.
  - `PostVisit` is the source's loop. It uses a stack of indices, a
    `map<nat, R>` for `visited`, and the caller's combining function `fn`.
  - The contract of `PostVisit` says three things. Its result is the
    recursive post-order fold `Fold`. `fn` runs only on nodes whose operands
    all have entries. When no node is shared, each node is combined exactly
    once.
  - Each loop iteration is also given as a function `Step` on a `Visit`
    state (stack, visited, calls). The loop's run is a ghost trace of such
    steps.
- **The `differentiate` rules** (`differentiate.dfy`, module
  `Differentiation`).
  - `DiffNode` is the rule set: one rule per node kind, plus the
    `NotImplementedError` fallback for a kind with no rule.
  - `Deriv` is the recursive derivative.
  - `Differentiate` is `postvisitor(expr, differentiate, var=v)` over an
    arena, and is proved to return `Deriv` of the tree the arena spells.

Python exceptions are modelled as `Result` values. The first exception
raised while visiting aborts the call. In the model, a failure from an
operand is passed on unchanged. The only exception the rules raise is the
fallback's `NotImplementedError("Cannot differentiate a Terminal")`, so which
failing node is met first does not change the result.

`postvisitor` is documented as applying its function to every node. Its
`visited` dictionary works as a memo table, and the comment at its end
says every subexpression has been visited. Yet a node that is pushed twice
before it is first combined is combined twice. The model follows the code:
see "## Findings".

The rendering parenthesises an operand only when it binds strictly more
loosely than its parent, on both sides. So an operand of equal precedence
is never wrapped, and the grouping of `a - (b + c)`, `a - (b - c)`,
`a / (b * c)` and `(a ^ b) ^ c` is lost (`RenderLosesGrouping`). The model
keeps this behaviour.

## Model

| member | source | states |
|---|---|---|
| Expressions.Operands | expressions/expressions.py:7-8 | a terminal has no operands; an operator node has exactly two, left then right |
| Expressions.OpOf | expressions/expressions.py:125-157 | every operator node is the node its kind builds from its own two operands |
| Expressions.Precedence | expressions/expressions.py:87-157 | the `precedence` attribute is 0 exactly for terminals (line 89) and at most 3; the operators have 1 (`Pow`), 2 (`Mul`, `Div`) and 3 (`Add`, `Sub`) |
| Expressions.OpSymbol | expressions/expressions.py:125-157 | each operator's `exp_symbol` is a single character that is neither a parenthesis nor a space |
| Expressions.NumberOf | expressions/expressions.py:108-114 | `Number(v)` succeeds iff `v` is a number, and then holds `v`; any other payload raises `TypeError` with a message |
| Expressions.Apply | expressions/expressions.py:10-14 | `self op other` is a node of kind `op` with `self` on the left; an expression operand is kept as it is; a raw number becomes `Number(n)` on the right (the same code recurs at 21-25, 32-36, 43-47 and 54-58) |
| Expressions.ApplyReflected | expressions/expressions.py:16-19 | `other op self` succeeds iff `other` is a number, giving a node of kind `op` with `Number(other)` on the left and `self` on the right; otherwise `TypeError` (the same code recurs at 27-30, 38-41, 49-52 and 60-63) |
| Expressions.ApplyKeepsOrder | expressions/expressions.py:21-25 | with two expressions, operand order is exactly as written: `a op b` and `b op a` build the same tree only when `a == b` |
| Expressions.NatToStringRoundTrip | expressions/expressions.py:100-102 | the decimal text of a `Number` payload is non-empty, made of digits only, and parses back to the payload |
| Expressions.IntToStringRoundTrip | expressions/expressions.py:100-102 | the same for a signed payload, with its sign |
| Expressions.Render | expressions/expressions.py:100-102 | a terminal renders as `str` of its value: a `Number` as its decimal numeral, which reads back as the value (see `IntToStringRoundTrip`), and a `Symbol` or bare `Terminal` as its payload. An operator node renders as its two operand texts around its symbol, separated by single spaces; that case is the definition itself, and its wrapping rule is stated in the `OperandTextWrapped` row |
| Expressions.OperandTextWrapped | expressions/expressions.py:75-84 | an operand is wrapped in parentheses iff its precedence is strictly greater than its parent's, and otherwise appears exactly as it renders alone |
| Expressions.RenderLosesGrouping | expressions/expressions.py:76-84 | because an operand of equal precedence is never wrapped, `a - (b + c)` and `(a - b) + c` render alike, as do `a - (b - c)` and `(a - b) - c`, `a / (b * c)` and `(a / b) * c`, and `(a ^ b) ^ c` and `a ^ (b ^ c)` |
| Expressions.RenderBalanced | expressions/expressions.py:73-84 | when no terminal payload contains a parenthesis, the rendering of any tree has balanced parentheses |
| Expressions.RenderExamples | expressions/expressions.py:73-84 | `Mul(Add(a, b), c)` renders as `(a + b) * c`, and `Add(a, Mul(b, c))` as `a + b * c` |
| Visitor.ToExpr | expressions/expressions.py:7-8 | the tree an arena node spells has exactly as many operands as the node |
| Visitor.ToExprOperands | expressions/expressions.py:7-8 | each operand of that tree is the tree of the matching operand index, in order |
| Visitor.Unvisited | expressions/expressions.py:181-184 | `unvisited_children` holds exactly the operands with no entry in `visited`, and no more of them than there are operands |
| Visitor.UnvisitedOperands | expressions/expressions.py:181-184 | the loop that collects `unvisited_children` computes `Unvisited` |
| Visitor.PushAll | expressions/expressions.py:190-191 | pushing the unvisited operands appends them to the stack in order |
| Visitor.Step | expressions/expressions.py:180-194 | one iteration never removes an entry from `visited`; it applies `fn` at most once, and only to the popped node; and only when every operand of that node already has an entry, in which case the popped node gains an entry |
| Visitor.Iterate | expressions/expressions.py:180-194 | one pass of the loop body is one `Step`: pop; if some operand has no entry, re-push the node and then push those operands; otherwise record `fn` applied to the node and its operands' entries, in operand order |
| Visitor.IterateMemo | expressions/expressions.py:180-194 | the corrected pass is one memoising `Step`: it drops a popped node that already has an entry, and otherwise makes the same pass as `Iterate` |
| Visitor.StepInv | expressions/expressions.py:179-194 | every pass keeps the loop invariant and strictly decreases a measure of the stack, so the loop terminates on every finite acyclic input |
| Visitor.Finish | expressions/expressions.py:195-197 | once the stack is empty, `visited` has an entry for the root, that entry is the post-order fold, and the combined nodes are exactly those reachable from the root |
| Visitor.PostVisit | expressions/expressions.py:160-197 | returns the recursive post-order fold of `fn`; combines exactly the nodes reachable from the root, each only after all its operands; combines each node once when nothing is shared; its trace is a run of `Step` |
| Visitor.PostVisitMemo | expressions/expressions.py:160-197 | the corrected visitor returns the same fold and combines every reachable node exactly once, on any DAG |
| Visitor.DistinctCount | expressions/expressions.py:194 | a log of combined nodes without repetitions that lists exactly a set of nodes has as many entries as that set |
| Visitor.SharedOperandCombinedTwice | expressions/expressions.py:181-194 | for `x + x` with one shared `x`, every complete run of the loop combines `x` twice: the log is `[x, x, x + x]` |
| Differentiation.DiffNode | expressions/expressions.py:200-259 | the rule for each kind: `Number` gives 0; `Symbol` gives 1 for the symbol `var`, else 0; `Add` gives `Add(o0, o1)`; `Sub` gives `Sub(o0, o1)`; `Mul(a, b)` gives `Add(Mul(o0, b), Mul(o1, a))`; `Div(a, b)` gives `Div(Sub(Mul(o0, b), Mul(a, o1)), Pow(b, Number(2)))`; `Pow(a, b)` gives `Mul(Mul(b, Pow(a, Sub(b, Number(1)))), o0)`; a kind with no rule fails, and only such a kind fails, with `NotImplementedError("Cannot differentiate a Terminal")` |
| Differentiation.Combine | expressions/expressions.py:192-194 | a rule run by the visitor fails iff the node has no rule or an operand's derivative already failed; the failure is that operand's failure or the fallback's `NotImplementedError` |
| Differentiation.FirstErr | expressions/expressions.py:216-218 | the failure passed on is one of the operands' failures |
| Differentiation.DerivFailsIffTerminal | expressions/expressions.py:216-218 | differentiating a tree fails iff the tree contains a node with no rule, and then raises the fallback's exception |
| Differentiation.DiffNodeSymbols | expressions/expressions.py:234-259 | a rule introduces no symbol beyond those of its node and of its operands' derivatives |
| Differentiation.DerivSymbols | expressions/expressions.py:221-259 | a derivative mentions only symbols of the expression it came from |
| Differentiation.DerivAbsentSymbol | expressions/expressions.py:226-231 | only the `Symbol` rule looks at `var`: two symbols the expression does not mention give the same derivative |
| Differentiation.DerivOfConstant | expressions/expressions.py:221-259 | with respect to a symbol the tree does not mention, a tree with no rule-less node differentiates to an unsimplified zero (every term carries a zero factor) |
| Differentiation.DiffNodeZero | expressions/expressions.py:234-259 | each operator rule, given zero derivatives for both operands, builds a zero |
| Differentiation.DerivExamples | expressions/expressions.py:244-246 | d(x * x)/dx is built as `1 * x + 1 * x`, and d(x ^ 3)/dx as `3 * x ^ (3 - 1) * 1` |
| Differentiation.FoldIsDeriv | expressions/expressions.py:160-259 | the post-order fold of the rules over an arena equals the recursive derivative of the tree the arena spells |
| Differentiation.Differentiate | expressions/expressions.py:160-197 | `postvisitor(expr, differentiate, var=v)` returns `Deriv(expr, v)` |

## Left out

- Float payloads: the rules produce `Number(0.0)` and `Number(1.0)`. The model uses integer payloads, so the leaves are `Number(0)` and `Number(1)`, and Python's float formatting is not modelled.
- `Operator.__repr__` and `Terminal.__repr__` (lines 69-71 and 96-98) depend on Python's `repr` of tuples and values. No property is stated about them.
- `singledispatch` registration and the `**kwargs` plumbing are modelled as a closed `match` with the symbol passed explicitly. The fallback covers the bare `Terminal` class only. Instances of the bare `Expression` and `Operator` classes are not modelled.
- Expressions.Apply: when a forward operator is given something that is neither a number nor an `Expression`, Python builds a node with a foreign operand and raises nothing. The model's operand type only admits expressions and numbers.
- Expressions.NumberOf: Python's numeric tower is reduced to a tag, Numeric or not. The refused type's name is a parameter. The message itself is modelled, including the quirk that `type(Number).__name__` is `"type"`, but the contract only says it is non-empty.
- Calculus correctness of the rules is not claimed, beyond DerivOfConstant's structural zero. The code has no evaluation. The `Pow` rule assumes a constant exponent.
- Visitor.PostVisit: `fn` is deterministic and total on well-shaped inputs (`Defined`). A Python function with side effects, or one that raises, is not modelled, apart from the derivative's `Result`.
- Visitor.PostVisit: for a shared DAG, the contract does not promise "exactly once", because the code combines a shared node again when it was pushed twice (see "## Findings"). It also states no bound on the number of combinations. Termination is proved through a measure, `Pending`, which bounds the number of iterations but is not turned into a bound on combinations.

## Findings

| source | as written | input that shows it | evidently intended | confidence | as-written member | corrected member |
|---|---|---|---|---|---|---|
| expressions/expressions.py:181-194 | a popped node is combined whenever all its operands have entries, even if it already has an entry itself; operands are collected as unvisited before any of them is visited | `x + x` with one shared `x`: both operands are pushed, and `x` is combined twice, so the log is `[x, x, x + x]` | `fn` is applied to every node (docstring at line 161), with `visited` as a memo table (lines 177 and 183, and the comment at 195-196), so each node's result is computed once | not executed | Visitor.SharedOperandCombinedTwice | Visitor.PostVisitMemo |

The result is still the fold. A deterministic `fn` is called more than once
per shared node, so a costly or side-effecting `fn` sees the extra calls.
`PostVisitMemo` adds the skip: it is `IterateMemo` in the loop. It is proved
to combine every reachable node exactly once. `Differentiate` uses
`PostVisit`, as the source does, and does not depend on the number of calls.
