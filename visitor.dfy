/** The iterative post-order visitor `postvisitor` over an expression DAG.

    Python keys its `visited` dictionary on node identity.  Here a DAG is an
    arena: a sequence of nodes whose index is the node's identity.  Every
    operand reference points to a strictly smaller index, so the graph is
    finite and acyclic, and one node may still be the operand of several
    parents, or twice the operand of one. */
module Visitor {
  import opened Expressions

  /** What a node is apart from its operands. */
  datatype Kind =
    | NumberKind(value: int)
    | SymbolKind(name: string)
    | TerminalKind(payload: string)
    | OperatorKind(op: BinOp)

  datatype Node = Node(kind: Kind, operands: seq<nat>)

  /** Every operand is an earlier node. */
  predicate Acyclic(arena: seq<Node>) {
    forall i, k :: 0 <= i < |arena| && 0 <= k < |arena[i].operands| ==> arena[i].operands[k] < i
  }

  /** Terminal kinds have no operands, operator kinds two. */
  predicate WellFormed(arena: seq<Node>) {
    forall i :: 0 <= i < |arena| ==>
      |arena[i].operands| == if arena[i].kind.OperatorKind? then 2 else 0
  }

  /** The expression node `i` stands for, with shared nodes unfolded. */
  function ToExpr(arena: seq<Node>, i: nat): (e: Expr)
    requires Acyclic(arena) && WellFormed(arena) && i < |arena|
    ensures |Operands(e)| == |arena[i].operands|
    decreases i
  {
    var ops := arena[i].operands;
    assert |ops| == if arena[i].kind.OperatorKind? then 2 else 0;
    match arena[i].kind
    case NumberKind(n) => Number(n)
    case SymbolKind(s) => Symbol(s)
    case TerminalKind(s) => Terminal(s)
    case OperatorKind(op) => Build(op, ToExpr(arena, ops[0]), ToExpr(arena, ops[1]))
  }

  /** The operands of the tree node `i` spells are the trees its operand
      indices spell, in operand order. */
  lemma ToExprOperands(arena: seq<Node>, i: nat)
    requires Acyclic(arena) && WellFormed(arena) && i < |arena|
    ensures forall k :: 0 <= k < |arena[i].operands| ==> Operands(ToExpr(arena, i))[k] == ToExpr(arena, arena[i].operands[k])
  {
    var ops := arena[i].operands;
    if arena[i].kind.OperatorKind? {
      assert |ops| == 2;
      var a, b := ToExpr(arena, ops[0]), ToExpr(arena, ops[1]);
      assert ToExpr(arena, i) == Build(arena[i].kind.op, a, b);
      BuildOperands(arena[i].kind.op, a, b);
    }
  }

  lemma BuildOperands(op: BinOp, a: Expr, b: Expr)
    ensures Operands(Build(op, a, b)) == [a, b]
  {
  }

  /** The combining function accepts every node with one result per operand. */
  ghost predicate Defined<R(!new)>(arena: seq<Node>, fn: (nat, seq<R>) --> R) {
    forall i, rs :: 0 <= i < |arena| && |rs| == |arena[i].operands| ==> fn.requires(i, rs)
  }

  /** The recursive post-order fold: `fn` applied to the node and to the
      folds of its operands, in operand order. */
  ghost function Fold<R(!new)>(arena: seq<Node>, fn: (nat, seq<R>) --> R, i: nat): R
    requires Acyclic(arena) && Defined(arena, fn) && i < |arena|
    decreases i, 1
  {
    fn(i, OperandResults(arena, fn, i))
  }

  ghost function OperandResults<R(!new)>(arena: seq<Node>, fn: (nat, seq<R>) --> R, i: nat): (rs: seq<R>)
    requires Acyclic(arena) && Defined(arena, fn) && i < |arena|
    ensures |rs| == |arena[i].operands|
    decreases i, 0
  {
    var ops := arena[i].operands;
    seq(|ops|, k requires 0 <= k < |ops| => Fold(arena, fn, ops[k]))
  }

  /** Node `i` lies in the DAG below `root`. */
  ghost predicate Reachable(arena: seq<Node>, root: nat, i: nat)
    decreases root - i
  {
    && root < |arena|
    && i <= root
    && (i == root || exists p :: i < p <= root && Reachable(arena, root, p) && i in arena[p].operands)
  }

  /** No node below `root` is shared: an operand slot of a reachable node
      is the only slot that refers to its node. */
  ghost predicate NoSharing(arena: seq<Node>, root: nat) {
    forall p: nat, q: nat, k, l ::
      && Reachable(arena, root, p) && Reachable(arena, root, q)
      && 0 <= k < |arena[p].operands| && 0 <= l < |arena[q].operands|
      && arena[p].operands[k] == arena[q].operands[l]
      ==> p == q && k == l
  }

  predicate Distinct(xs: seq<nat>) {
    forall j, k :: 0 <= j < k < |xs| ==> xs[j] != xs[k]
  }

  /** The operands not yet in `visited`, in operand order (the list
      `unvisited_children`). */
  function Unvisited<R(!new)>(ops: seq<nat>, visited: map<nat, R>): (u: seq<nat>)
    ensures forall x :: x in u <==> x in ops && x !in visited
    ensures |u| <= |ops|
  {
    if |ops| == 0 then []
    else
      var last := ops[|ops| - 1];
      Unvisited(ops[..|ops| - 1], visited) + (if last in visited then [] else [last])
  }

  /** An operand set with no unvisited member is wholly in `visited`. */
  lemma NoneUnvisited<R(!new)>(ops: seq<nat>, visited: map<nat, R>)
    requires |Unvisited(ops, visited)| == 0
    ensures forall o :: o in ops ==> o in visited
  {
    assert Unvisited(ops, visited) == [];
  }

  /** The entries of the operands, in operand order: what `fn` receives. */
  function OperandEntries<R>(ops: seq<nat>, visited: map<nat, R>): (rs: seq<R>)
    requires forall o :: o in ops ==> o in visited
    ensures |rs| == |ops| && forall k :: 0 <= k < |ops| ==> rs[k] == visited[ops[k]]
  {
    seq(|ops|, k requires 0 <= k < |ops| => visited[ops[k]])
  }

  // ---------------------------------------------------------------------
  // One iteration of the `while stack` loop, as a function of the state

  /** The loop's state: the stack, the `visited` table, and the nodes `fn`
      has been applied to, in order. */
  datatype Visit<R> = Visit(stack: seq<nat>, visited: map<nat, R>, calls: seq<nat>)

  /** The popped node is dropped: it is in `visited` already. */
  function Skipped<R>(s: Visit<R>): Visit<R>
    requires |s.stack| > 0
  {
    Visit(s.stack[..|s.stack| - 1], s.visited, s.calls)
  }

  /** The popped node goes back, with its unvisited operands above it. */
  function Expanded<R(!new)>(arena: seq<Node>, s: Visit<R>): Visit<R>
    requires |s.stack| > 0 && s.stack[|s.stack| - 1] < |arena|
  {
    Visit(s.stack + Unvisited(arena[s.stack[|s.stack| - 1]].operands, s.visited), s.visited, s.calls)
  }

  /** The popped node is combined from its operands' entries in `visited`. */
  ghost function Combined<R(!new)>(arena: seq<Node>, fn: (nat, seq<R>) --> R, s: Visit<R>): Visit<R>
    requires Defined(arena, fn)
    requires |s.stack| > 0 && s.stack[|s.stack| - 1] < |arena|
    requires forall o :: o in arena[s.stack[|s.stack| - 1]].operands ==> o in s.visited
  {
    var e := s.stack[|s.stack| - 1];
    var ops := arena[e].operands;
    var results := OperandEntries(ops, s.visited);
    Visit(s.stack[..|s.stack| - 1], s.visited[e := fn(e, results)], s.calls + [e])
  }

  /** One iteration of the loop.  Pop the top node `e`.  If some operand is
      unvisited, push `e` back and then its unvisited operands; otherwise
      record `fn(e, results)` in `visited`.  With `skipVisited`, a popped
      node that is already in `visited` is dropped instead (the memoised
      variant).  An iteration never forgets an entry, applies `fn` at most
      once, and only to the popped node once all its operands have entries. */
  ghost function Step<R(!new)>(arena: seq<Node>, fn: (nat, seq<R>) --> R, skipVisited: bool, s: Visit<R>): (t: Visit<R>)
    requires Defined(arena, fn)
    requires |s.stack| > 0 && s.stack[|s.stack| - 1] < |arena|
    ensures s.visited.Keys <= t.visited.Keys
    ensures t.calls == s.calls || t.calls == s.calls + [s.stack[|s.stack| - 1]]
    ensures t.calls != s.calls ==>
      && (forall o :: o in arena[s.stack[|s.stack| - 1]].operands ==> o in s.visited)
      && t.visited.Keys == s.visited.Keys + {s.stack[|s.stack| - 1]}
  {
    var e := s.stack[|s.stack| - 1];
    var u := Unvisited(arena[e].operands, s.visited);
    if skipVisited && e in s.visited then Skipped(s)
    else if |u| > 0 then Expanded(arena, s)
    else
      NoneUnvisited(arena[e].operands, s.visited);
      Combined(arena, fn, s)
  }

  /** `t` is the state one iteration after `s`. */
  ghost predicate StepsTo<R(!new)>(arena: seq<Node>, fn: (nat, seq<R>) --> R, skipVisited: bool, s: Visit<R>, t: Visit<R>)
    requires Defined(arena, fn)
  {
    |s.stack| > 0 && s.stack[|s.stack| - 1] < |arena| && t == Step(arena, fn, skipVisited, s)
  }

  /** `trace` lists the states of the loop, from the stack `[root]` on. */
  ghost predicate IsRun<R(!new)>(arena: seq<Node>, fn: (nat, seq<R>) --> R, skipVisited: bool, root: nat,
                                 trace: seq<Visit<R>>)
    requires Defined(arena, fn)
  {
    && |trace| > 0
    && trace[0] == Visit([root], map[], [])
    && forall i :: 0 <= i < |trace| - 1 ==> StepsTo(arena, fn, skipVisited, trace[i], trace[i + 1])
  }

  lemma RunExtend<R(!new)>(arena: seq<Node>, fn: (nat, seq<R>) --> R, skipVisited: bool, root: nat,
                           trace: seq<Visit<R>>, t: Visit<R>)
    requires Defined(arena, fn) && IsRun(arena, fn, skipVisited, root, trace)
    requires StepsTo(arena, fn, skipVisited, trace[|trace| - 1], t)
    ensures IsRun(arena, fn, skipVisited, root, trace + [t])
  {
    var tr := trace + [t];
    forall i | 0 <= i < |tr| - 1 ensures StepsTo(arena, fn, skipVisited, tr[i], tr[i + 1]) {
      assert tr[i] == trace[i];
      if i < |trace| - 1 {
        assert tr[i + 1] == trace[i + 1];
      }
    }
  }

  // ---------------------------------------------------------------------
  // Termination measure

  /** The number of nodes of the tree that unfolds node `i`. */
  ghost function TreeSize(arena: seq<Node>, i: nat): nat
    requires Acyclic(arena) && i < |arena|
    decreases i, 1
  {
    1 + SizeSum(arena, arena[i].operands, i)
  }

  ghost function SizeSum(arena: seq<Node>, xs: seq<nat>, bound: nat): nat
    requires Acyclic(arena) && bound <= |arena|
    requires forall j :: 0 <= j < |xs| ==> xs[j] < bound
    decreases bound, 0, |xs|
  {
    if |xs| == 0 then 0
    else SizeSum(arena, xs[..|xs| - 1], bound) + TreeSize(arena, xs[|xs| - 1])
  }

  /** A stack entry that has not been popped yet may still unfold its whole
      tree; one that was pushed back after its operands ("expanded") only
      waits to be combined. */
  ghost function Pending(arena: seq<Node>, stack: seq<nat>, expanded: seq<bool>): nat
    requires Acyclic(arena) && |expanded| == |stack|
    requires forall j :: 0 <= j < |stack| ==> stack[j] < |arena|
  {
    if |stack| == 0 then 0
    else
      var top := stack[|stack| - 1];
      Pending(arena, stack[..|stack| - 1], expanded[..|stack| - 1])
        + (if expanded[|stack| - 1] then 1 else 2 * TreeSize(arena, top))
  }

  function Falses(n: nat): (f: seq<bool>)
    ensures |f| == n && forall j :: 0 <= j < n ==> !f[j]
  {
    if n == 0 then [] else Falses(n - 1) + [false]
  }

  lemma UnvisitedBelow<R(!new)>(ops: seq<nat>, visited: map<nat, R>, bound: nat)
    requires forall j :: 0 <= j < |ops| ==> ops[j] < bound
    ensures forall j :: 0 <= j < |Unvisited(ops, visited)| ==> Unvisited(ops, visited)[j] < bound
  {
    var u := Unvisited(ops, visited);
    forall j | 0 <= j < |u| ensures u[j] < bound {
      assert u[j] in u;
    }
  }

  lemma {:induction false} UnvisitedSizeSum<R(!new)>(arena: seq<Node>, ops: seq<nat>, visited: map<nat, R>, bound: nat)
    requires Acyclic(arena) && bound <= |arena|
    requires forall j :: 0 <= j < |ops| ==> ops[j] < bound
    requires forall j :: 0 <= j < |Unvisited(ops, visited)| ==> Unvisited(ops, visited)[j] < bound
    ensures SizeSum(arena, Unvisited(ops, visited), bound) <= SizeSum(arena, ops, bound)
  {
    if |ops| > 0 {
      var ops' := ops[..|ops| - 1];
      var last := ops[|ops| - 1];
      assert forall j :: 0 <= j < |ops'| ==> ops'[j] < bound;
      var u' := Unvisited(ops', visited);
      UnvisitedBelow(ops', visited, bound);
      UnvisitedSizeSum(arena, ops', visited, bound);
      assert SizeSum(arena, ops, bound) == SizeSum(arena, ops', bound) + TreeSize(arena, last);
      if last in visited {
        assert Unvisited(ops, visited) == u';
      } else {
        var u := u' + [last];
        assert Unvisited(ops, visited) == u;
        assert u[..|u| - 1] == u';
        assert SizeSum(arena, u, bound) == SizeSum(arena, u', bound) + TreeSize(arena, last);
      }
    }
  }

  lemma {:induction false} PendingPushFresh(arena: seq<Node>, stack: seq<nat>, expanded: seq<bool>, u: seq<nat>, bound: nat)
    requires Acyclic(arena) && |expanded| == |stack| && bound <= |arena|
    requires forall j :: 0 <= j < |stack| ==> stack[j] < |arena|
    requires forall j :: 0 <= j < |u| ==> u[j] < bound
    ensures forall j :: 0 <= j < |stack + u| ==> (stack + u)[j] < |arena|
    ensures Pending(arena, stack + u, expanded + Falses(|u|))
         == Pending(arena, stack, expanded) + 2 * SizeSum(arena, u, bound)
  {
    if |u| > 0 {
      var u' := u[..|u| - 1];
      PendingPushFresh(arena, stack, expanded, u', bound);
      assert (stack + u)[..|stack + u| - 1] == stack + u';
      assert (expanded + Falses(|u|))[..|stack + u| - 1] == expanded + Falses(|u'|);
    } else {
      assert stack + u == stack;
      assert expanded + Falses(|u|) == expanded;
    }
  }

  // ---------------------------------------------------------------------
  // The loop invariant, in five parts

  ghost predicate StackInArena(arena: seq<Node>, stack: seq<nat>) {
    forall j :: 0 <= j < |stack| ==> stack[j] < |arena|
  }

  /** The stack holds nodes below the root, with the root at the bottom
      until the root itself is combined. */
  ghost predicate StackOk<R>(arena: seq<Node>, root: nat, stack: seq<nat>, visited: map<nat, R>) {
    && root < |arena|
    && StackInArena(arena, stack)
    && (forall j :: 0 <= j < |stack| ==> Reachable(arena, root, stack[j]))
    && (|stack| > 0 ==> stack[0] == root)
    && (|stack| == 0 ==> root in visited)
  }

  /** Every entry of `visited` is a node below the root holding its fold;
      `visited` is closed under operands; the nodes `fn` was applied to are
      exactly the keys of `visited`. */
  ghost predicate VisitedOk<R(!new)>(arena: seq<Node>, fn: (nat, seq<R>) --> R, root: nat,
                                   visited: map<nat, R>, calls: seq<nat>)
    requires Acyclic(arena) && Defined(arena, fn)
  {
    && (forall i :: i in visited ==> Reachable(arena, root, i) && visited[i] == Fold(arena, fn, i))
    && (forall i, k :: i in visited && 0 <= k < |arena[i].operands| ==> arena[i].operands[k] in visited)
    && (forall i :: i in calls <==> i in visited)
    && (forall j :: 0 <= j < |calls| ==> OperandsBefore(arena, calls, j))
  }

  /** Post-order: the `j`th call's operands were all combined before it. */
  ghost predicate OperandsBefore(arena: seq<Node>, calls: seq<nat>, j: int)
    requires 0 <= j < |calls|
  {
    calls[j] < |arena| && forall o :: o in arena[calls[j]].operands ==> o in calls[..j]
  }

  /** An expanded entry's operands are visited or wait above it. */
  ghost predicate ExpandedOk<R>(arena: seq<Node>, stack: seq<nat>, visited: map<nat, R>, expanded: seq<bool>) {
    && |expanded| == |stack|
    && StackInArena(arena, stack)
    && (forall j :: 0 <= j < |stack| && expanded[j] ==> Covered(arena, stack, visited, j))
  }

  ghost predicate Covered<R>(arena: seq<Node>, stack: seq<nat>, visited: map<nat, R>, j: int)
    requires StackInArena(arena, stack) && 0 <= j < |stack|
  {
    forall o :: o in arena[stack[j]].operands ==> o in visited || o in stack[j + 1..]
  }

  /** Every non-bottom stack entry sits above an entry whose node it is an
      operand of. */
  ghost predicate ParentBelow(arena: seq<Node>, stack: seq<nat>)
    requires StackInArena(arena, stack)
  {
    forall j :: 0 < j < |stack| ==> HasParent(arena, stack, j)
  }

  ghost predicate HasParent(arena: seq<Node>, stack: seq<nat>, j: int)
    requires StackInArena(arena, stack) && 0 <= j < |stack|
  {
    exists i :: 0 <= i < j && stack[j] in arena[stack[i]].operands
  }

  /** Without sharing, no node is on the stack twice or both on the stack
      and in `visited`, and no node was combined twice. */
  ghost predicate TreeOk<R>(arena: seq<Node>, root: nat, stack: seq<nat>, visited: map<nat, R>, calls: seq<nat>)
    requires StackInArena(arena, stack)
  {
    NoSharing(arena, root) ==>
      && Distinct(stack)
      && Distinct(calls)
      && (forall j :: 0 <= j < |stack| ==> stack[j] !in visited)
      && ParentBelow(arena, stack)
  }

  ghost predicate Inv<R(!new)>(arena: seq<Node>, fn: (nat, seq<R>) --> R, skipVisited: bool, root: nat,
                             s: Visit<R>, expanded: seq<bool>)
    requires Acyclic(arena) && Defined(arena, fn)
  {
    && StackOk(arena, root, s.stack, s.visited)
    && VisitedOk(arena, fn, root, s.visited, s.calls)
    && ExpandedOk(arena, s.stack, s.visited, expanded)
    && (skipVisited ==> Distinct(s.calls))
    && TreeOk(arena, root, s.stack, s.visited, s.calls)
  }

  lemma InitialInv<R(!new)>(arena: seq<Node>, fn: (nat, seq<R>) --> R, skipVisited: bool, root: nat)
    requires Acyclic(arena) && Defined(arena, fn) && root < |arena|
    ensures Inv(arena, fn, skipVisited, root, Visit([root], map[], []), [false])
  {
    var s: Visit<R> := Visit([root], map[], []);
    assert Reachable(arena, root, root);
    assert StackOk(arena, root, s.stack, s.visited);
    assert VisitedOk(arena, fn, root, s.visited, s.calls);
    assert ExpandedOk(arena, s.stack, s.visited, [false]) by {
      assert forall j :: 0 <= j < 1 ==> ![false][j];
    }
    assert ParentBelow(arena, s.stack);
    assert TreeOk(arena, root, s.stack, s.visited, s.calls);
  }

  // ---------------------------------------------------------------------
  // Popping the top entry for good (it is combined, or skipped)

  lemma PendingPop(arena: seq<Node>, stack: seq<nat>, expanded: seq<bool>)
    requires Acyclic(arena) && |expanded| == |stack| && |stack| > 0
    requires StackInArena(arena, stack)
    ensures StackInArena(arena, stack[..|stack| - 1])
    ensures Pending(arena, stack[..|stack| - 1], expanded[..|stack| - 1]) < Pending(arena, stack, expanded)
  {
  }

  lemma StackPop<R>(arena: seq<Node>, root: nat, stack: seq<nat>, visited: map<nat, R>, visited': map<nat, R>)
    requires StackOk(arena, root, stack, visited) && |stack| > 0
    requires stack[|stack| - 1] in visited'
    ensures StackOk(arena, root, stack[..|stack| - 1], visited')
  {
  }

  lemma ExpandedPop<R>(arena: seq<Node>, stack: seq<nat>, visited: map<nat, R>, expanded: seq<bool>, visited': map<nat, R>)
    requires ExpandedOk(arena, stack, visited, expanded) && |stack| > 0
    requires visited.Keys <= visited'.Keys && stack[|stack| - 1] in visited'
    ensures ExpandedOk(arena, stack[..|stack| - 1], visited', expanded[..|stack| - 1])
  {
    var n := |stack|;
    var e := stack[n - 1];
    var rest := stack[..n - 1];
    var ex' := expanded[..n - 1];
    forall j | 0 <= j < |rest| && ex'[j] ensures Covered(arena, rest, visited', j) {
      assert expanded[j] && Covered(arena, stack, visited, j);
      assert stack[j + 1..] == rest[j + 1..] + [e];
      assert stack[j] == rest[j];
    }
  }

  lemma TreePop<R>(arena: seq<Node>, root: nat, stack: seq<nat>, visited: map<nat, R>, calls: seq<nat>,
                   visited': map<nat, R>, calls': seq<nat>)
    requires StackInArena(arena, stack) && TreeOk(arena, root, stack, visited, calls) && |stack| > 0
    requires visited'.Keys <= visited.Keys + {stack[|stack| - 1]}
    requires NoSharing(arena, root) ==> Distinct(calls')
    ensures StackInArena(arena, stack[..|stack| - 1])
    ensures TreeOk(arena, root, stack[..|stack| - 1], visited', calls')
  {
    var n := |stack|;
    var rest := stack[..n - 1];
    if NoSharing(arena, root) {
      assert Distinct(rest);
      forall j | 0 <= j < |rest| ensures rest[j] !in visited' {
        assert stack[j] != stack[n - 1];
      }
      forall j | 0 < j < |rest|
        ensures HasParent(arena, rest, j)
      {
        assert HasParent(arena, stack, j);
        var i :| 0 <= i < j && stack[j] in arena[stack[i]].operands;
        assert rest[i] == stack[i];
      }
    }
  }

  /** With every operand's fold in `visited`, the results handed to `fn`
      are the operands' folds, in operand order. */
  lemma CombineIsFold<R(!new)>(arena: seq<Node>, fn: (nat, seq<R>) --> R, visited: map<nat, R>, e: nat)
    requires Acyclic(arena) && Defined(arena, fn) && e < |arena|
    requires forall o :: o in arena[e].operands ==> o in visited && visited[o] == Fold(arena, fn, o)
    ensures var ops := arena[e].operands;
      && (forall k :: 0 <= k < |ops| ==> ops[k] in visited)
      && fn(e, OperandEntries(ops, visited)) == Fold(arena, fn, e)
  {
    var ops := arena[e].operands;
    var results := OperandEntries(ops, visited);
    assert results == OperandResults(arena, fn, e);
  }

  lemma VisitedCombine<R(!new)>(arena: seq<Node>, fn: (nat, seq<R>) --> R, root: nat,
                                visited: map<nat, R>, calls: seq<nat>, e: nat)
    requires Acyclic(arena) && Defined(arena, fn) && VisitedOk(arena, fn, root, visited, calls)
    requires e < |arena| && Reachable(arena, root, e)
    requires forall o :: o in arena[e].operands ==> o in visited
    ensures var ops := arena[e].operands;
      && (forall k :: 0 <= k < |ops| ==> ops[k] in visited)
      && VisitedOk(arena, fn, root,
                   visited[e := fn(e, OperandEntries(ops, visited))], calls + [e])
  {
    CombineIsFold(arena, fn, visited, e);
    var ops := arena[e].operands;
    var visited' := visited[e := fn(e, OperandEntries(ops, visited))];
    var calls' := calls + [e];
    assert forall i :: i in visited' ==> Reachable(arena, root, i) && visited'[i] == Fold(arena, fn, i);
    assert forall i, k :: i in visited' && 0 <= k < |arena[i].operands| ==> arena[i].operands[k] in visited';
    assert forall i :: i in calls' <==> i in visited';
    forall j | 0 <= j < |calls'| ensures OperandsBefore(arena, calls', j) {
      if j < |calls| {
        assert OperandsBefore(arena, calls, j);
        assert calls'[j] == calls[j] && calls'[..j] == calls[..j];
      } else {
        assert calls'[..j] == calls;
      }
    }
  }

  /** The popped node is dropped because it is already in `visited`. */
  lemma SkipInv<R(!new)>(arena: seq<Node>, fn: (nat, seq<R>) --> R, skipVisited: bool, root: nat,
                         s: Visit<R>, expanded: seq<bool>)
    requires Acyclic(arena) && Defined(arena, fn) && Inv(arena, fn, skipVisited, root, s, expanded)
    requires |s.stack| > 0 && s.stack[|s.stack| - 1] in s.visited
    ensures Inv(arena, fn, skipVisited, root, Skipped(s), expanded[..|s.stack| - 1])
    ensures Pending(arena, Skipped(s).stack, expanded[..|s.stack| - 1]) < Pending(arena, s.stack, expanded)
  {
    PendingPop(arena, s.stack, expanded);
    StackPop(arena, root, s.stack, s.visited, s.visited);
    ExpandedPop(arena, s.stack, s.visited, expanded, s.visited);
    TreePop(arena, root, s.stack, s.visited, s.calls, s.visited, s.calls);
  }

  /** The popped node is ready: every operand is in `visited`. */
  lemma CombineInv<R(!new)>(arena: seq<Node>, fn: (nat, seq<R>) --> R, skipVisited: bool, root: nat,
                            s: Visit<R>, expanded: seq<bool>)
    requires Acyclic(arena) && Defined(arena, fn) && Inv(arena, fn, skipVisited, root, s, expanded)
    requires |s.stack| > 0 && !(skipVisited && s.stack[|s.stack| - 1] in s.visited)
    requires forall o :: o in arena[s.stack[|s.stack| - 1]].operands ==> o in s.visited
    ensures Inv(arena, fn, skipVisited, root, Combined(arena, fn, s), expanded[..|s.stack| - 1])
    ensures Pending(arena, Combined(arena, fn, s).stack, expanded[..|s.stack| - 1]) < Pending(arena, s.stack, expanded)
  {
    var n := |s.stack|;
    var e := s.stack[n - 1];
    var s' := Combined(arena, fn, s);
    assert Reachable(arena, root, e);
    VisitedCombine(arena, fn, root, s.visited, s.calls, e);
    assert s'.visited.Keys == s.visited.Keys + {e};
    PendingPop(arena, s.stack, expanded);
    StackPop(arena, root, s.stack, s.visited, s'.visited);
    ExpandedPop(arena, s.stack, s.visited, expanded, s'.visited);
    if skipVisited || NoSharing(arena, root) {
      assert Distinct(s.calls) && e !in s.visited;
      AppendDistinct(s.calls, e);
    }
    TreePop(arena, root, s.stack, s.visited, s.calls, s'.visited, s'.calls);
  }

  lemma AppendDistinct(xs: seq<nat>, x: nat)
    requires Distinct(xs) && x !in xs
    ensures Distinct(xs + [x])
  {
  }

  lemma {:induction false} UnvisitedDistinct<R(!new)>(ops: seq<nat>, visited: map<nat, R>)
    requires Distinct(ops)
    ensures Distinct(Unvisited(ops, visited))
  {
    if |ops| > 0 {
      var ops' := ops[..|ops| - 1];
      assert Distinct(ops');
      UnvisitedDistinct(ops', visited);
    }
  }

  lemma UniqueParent(arena: seq<Node>, root: nat, p: nat, q: nat, c: nat)
    requires NoSharing(arena, root) && Reachable(arena, root, p) && Reachable(arena, root, q)
    ensures c in arena[p].operands && c in arena[q].operands ==> p == q
  {
    if c in arena[p].operands && c in arena[q].operands {
      var k :| 0 <= k < |arena[p].operands| && arena[p].operands[k] == c;
      var l :| 0 <= l < |arena[q].operands| && arena[q].operands[l] == c;
    }
  }

  // ---------------------------------------------------------------------
  // Pushing the top entry back, with its unvisited operands above it

  lemma StackExpand<R>(arena: seq<Node>, root: nat, stack: seq<nat>, visited: map<nat, R>, u: seq<nat>)
    requires Acyclic(arena) && StackOk(arena, root, stack, visited) && |stack| > 0
    requires forall m :: 0 <= m < |u| ==> u[m] in arena[stack[|stack| - 1]].operands
    ensures StackOk(arena, root, stack + u, visited)
  {
    var n := |stack|;
    var e := stack[n - 1];
    var st := stack + u;
    assert Reachable(arena, root, e);
    forall j | 0 <= j < |st| ensures st[j] < |arena| && Reachable(arena, root, st[j]) {
      if j >= n {
        assert st[j] == u[j - n] && u[j - n] in arena[e].operands;
      } else {
        assert st[j] == stack[j];
      }
    }
  }

  lemma ExpandedExpand<R(!new)>(arena: seq<Node>, stack: seq<nat>, visited: map<nat, R>, expanded: seq<bool>, u: seq<nat>)
    requires ExpandedOk(arena, stack, visited, expanded) && |stack| > 0
    requires forall o :: o in arena[stack[|stack| - 1]].operands ==> o in visited || o in u
    requires forall m :: 0 <= m < |u| ==> u[m] < |arena|
    requires StackInArena(arena, stack + u)
    ensures ExpandedOk(arena, stack + u, visited, expanded[..|stack| - 1] + [true] + Falses(|u|))
  {
    var n := |stack|;
    var e := stack[n - 1];
    var st := stack + u;
    var ex' := expanded[..n - 1] + [true] + Falses(|u|);
    forall j | 0 <= j < |st| && ex'[j] ensures Covered(arena, st, visited, j) {
      if j < n - 1 {
        assert ex'[j] == expanded[j];
        CoveredExtend(arena, stack, visited, j, u);
      } else if j == n - 1 {
        assert st[j] == e;
        assert st[j + 1..] == u;
      }
    }
  }

  lemma CoveredExtend<R>(arena: seq<Node>, stack: seq<nat>, visited: map<nat, R>, j: int, u: seq<nat>)
    requires StackInArena(arena, stack) && StackInArena(arena, stack + u) && 0 <= j < |stack|
    requires Covered(arena, stack, visited, j)
    ensures Covered(arena, stack + u, visited, j)
  {
    var st := stack + u;
    assert st[j] == stack[j];
    assert st[j + 1..] == stack[j + 1..] + u;
  }

  /** Under NoSharing, the operands pushed on expansion are distinct and
      not on the stack yet. */
  lemma ExpandFresh<R(!new)>(arena: seq<Node>, root: nat, stack: seq<nat>, visited: map<nat, R>, calls: seq<nat>)
    requires Acyclic(arena) && StackOk(arena, root, stack, visited) && |stack| > 0
    requires TreeOk(arena, root, stack, visited, calls) && NoSharing(arena, root)
    ensures var u := Unvisited(arena[stack[|stack| - 1]].operands, visited);
      Distinct(u) && forall j, m :: 0 <= j < |stack| && 0 <= m < |u| ==> u[m] != stack[j]
  {
    var n := |stack|;
    var e := stack[n - 1];
    var ops := arena[e].operands;
    var u := Unvisited(ops, visited);
    assert Reachable(arena, root, e);
    assert Distinct(ops) by {
      forall k, l | 0 <= k < l < |ops| ensures ops[k] != ops[l] {
      }
    }
    UnvisitedDistinct(ops, visited);
    forall j, m | 0 <= j < n && 0 <= m < |u| ensures u[m] != stack[j] {
      assert u[m] in ops;
      assert u[m] < e <= root;
      if 0 < j < n - 1 {
        assert HasParent(arena, stack, j);
        var i :| 0 <= i < j && stack[j] in arena[stack[i]].operands;
        assert Reachable(arena, root, stack[i]);
        UniqueParent(arena, root, stack[i], e, u[m]);
        assert stack[i] != e;
      }
    }
  }

  lemma DistinctConcat(a: seq<nat>, b: seq<nat>)
    requires Distinct(a) && Distinct(b)
    requires forall j, m :: 0 <= j < |a| && 0 <= m < |b| ==> b[m] != a[j]
    ensures Distinct(a + b)
  {
    var ab := a + b;
    forall j, k | 0 <= j < k < |ab| ensures ab[j] != ab[k] {
      if k < |a| {
        assert ab[j] == a[j] && ab[k] == a[k];
      } else if j < |a| {
        assert ab[k] == b[k - |a|] && ab[j] == a[j];
      } else {
        assert ab[k] == b[k - |a|] && ab[j] == b[j - |a|];
      }
    }
  }

  lemma ParentBelowExpand(arena: seq<Node>, stack: seq<nat>, u: seq<nat>)
    requires StackInArena(arena, stack) && StackInArena(arena, stack + u) && |stack| > 0
    requires ParentBelow(arena, stack)
    requires forall m :: 0 <= m < |u| ==> u[m] in arena[stack[|stack| - 1]].operands
    ensures ParentBelow(arena, stack + u)
  {
    var n := |stack|;
    var st := stack + u;
    forall j | 0 < j < |st|
      ensures HasParent(arena, st, j)
    {
      if j < n {
        assert HasParent(arena, stack, j);
        var i :| 0 <= i < j && stack[j] in arena[stack[i]].operands;
        assert st[i] == stack[i] && st[j] == stack[j];
        assert st[j] in arena[st[i]].operands;
      } else {
        assert st[n - 1] == stack[n - 1] && st[j] == u[j - n];
        assert st[j] in arena[st[n - 1]].operands;
      }
    }
    assert ParentBelow(arena, st);
  }

  lemma StackInArenaConcat(arena: seq<Node>, stack: seq<nat>, u: seq<nat>)
    requires StackInArena(arena, stack) && StackInArena(arena, u)
    ensures StackInArena(arena, stack + u)
  {
    var st := stack + u;
    forall j | 0 <= j < |st| ensures st[j] < |arena| {
      if j >= |stack| { assert st[j] == u[j - |stack|]; } else { assert st[j] == stack[j]; }
    }
  }

  lemma TreeExpand<R(!new)>(arena: seq<Node>, root: nat, stack: seq<nat>, visited: map<nat, R>, calls: seq<nat>,
                            u: seq<nat>)
    requires Acyclic(arena) && StackOk(arena, root, stack, visited) && |stack| > 0
    requires TreeOk(arena, root, stack, visited, calls)
    requires u == Unvisited(arena[stack[|stack| - 1]].operands, visited)
    requires StackInArena(arena, stack + u)
    ensures TreeOk(arena, root, stack + u, visited, calls)
  {
    var n := |stack|;
    var st := stack + u;
    if NoSharing(arena, root) {
      ExpandFresh(arena, root, stack, visited, calls);
      DistinctConcat(stack, u);
      forall j | 0 <= j < |st| ensures st[j] !in visited {
        if j < n { assert st[j] == stack[j]; } else { assert st[j] == u[j - n]; }
      }
      assert forall m :: 0 <= m < |u| ==> u[m] in arena[stack[n - 1]].operands;
      ParentBelowExpand(arena, stack, u);
    }
  }

  /** An expanded top entry has all its operands visited. */
  lemma ExpandedTopDone<R(!new)>(arena: seq<Node>, stack: seq<nat>, visited: map<nat, R>, expanded: seq<bool>)
    requires ExpandedOk(arena, stack, visited, expanded) && |stack| > 0
    ensures |Unvisited(arena[stack[|stack| - 1]].operands, visited)| > 0 ==> !expanded[|stack| - 1]
  {
    var n := |stack|;
    var ops := arena[stack[n - 1]].operands;
    var u := Unvisited(ops, visited);
    if |u| > 0 {
      assert u[0] in u;
      assert stack[n..] == [];
    }
  }

  /** The popped node has unvisited operands: it goes back on the stack with
      them above it, and is marked expanded. */
  lemma ExpandInv<R(!new)>(arena: seq<Node>, fn: (nat, seq<R>) --> R, skipVisited: bool, root: nat,
                           s: Visit<R>, expanded: seq<bool>, u: seq<nat>)
    returns (ex': seq<bool>)
    requires Acyclic(arena) && Defined(arena, fn) && Inv(arena, fn, skipVisited, root, s, expanded)
    requires |s.stack| > 0 && u == Unvisited(arena[s.stack[|s.stack| - 1]].operands, s.visited) && |u| > 0
    ensures Inv(arena, fn, skipVisited, root, Expanded(arena, s), ex')
    ensures Pending(arena, Expanded(arena, s).stack, ex') < Pending(arena, s.stack, expanded)
  {
    var n := |s.stack|;
    var e := s.stack[n - 1];
    var ops := arena[e].operands;
    ex' := expanded[..n - 1] + [true] + Falses(|u|);
    ExpandedTopDone(arena, s.stack, s.visited, expanded);
    var s' := Expanded(arena, s);
    assert s' == Visit(s.stack + u, s.visited, s.calls);
    assert forall m :: 0 <= m < |u| ==> u[m] in ops;
    StackInArenaConcat(arena, s.stack, u);
    StackExpand(arena, root, s.stack, s.visited, u);
    assert StackOk(arena, root, s'.stack, s'.visited);
    ExpandedExpand(arena, s.stack, s.visited, expanded, u);
    assert ExpandedOk(arena, s'.stack, s'.visited, ex');
    TreeExpand(arena, root, s.stack, s.visited, s.calls, u);
    assert TreeOk(arena, root, s'.stack, s'.visited, s'.calls);
    ExpandPending(arena, s.stack, expanded, s.visited);
  }

  lemma ExpandPending<R(!new)>(arena: seq<Node>, stack: seq<nat>, expanded: seq<bool>, visited: map<nat, R>)
    requires Acyclic(arena) && |expanded| == |stack| && |stack| > 0 && StackInArena(arena, stack)
    requires !expanded[|stack| - 1]
    ensures var u := Unvisited(arena[stack[|stack| - 1]].operands, visited);
      && StackInArena(arena, stack + u)
      && Pending(arena, stack + u, expanded[..|stack| - 1] + [true] + Falses(|u|)) < Pending(arena, stack, expanded)
  {
    var n := |stack|;
    var e := stack[n - 1];
    var ops := arena[e].operands;
    var u := Unvisited(ops, visited);
    var ex := expanded[..n - 1] + [true];
    UnvisitedBelow(ops, visited, e);
    UnvisitedSizeSum(arena, ops, visited, e);
    PendingPushFresh(arena, stack, ex, u, e);
    assert ex[..n - 1] == expanded[..n - 1];
    assert Pending(arena, stack, ex) == Pending(arena, stack[..n - 1], expanded[..n - 1]) + 1;
    assert Pending(arena, stack, expanded)
        == Pending(arena, stack[..n - 1], expanded[..n - 1]) + 2 + 2 * SizeSum(arena, ops, e);
  }

  /** One iteration keeps the invariant and lowers the measure. */
  lemma StepInv<R(!new)>(arena: seq<Node>, fn: (nat, seq<R>) --> R, skipVisited: bool, root: nat,
                         s: Visit<R>, expanded: seq<bool>)
    returns (ex': seq<bool>)
    requires Acyclic(arena) && Defined(arena, fn) && Inv(arena, fn, skipVisited, root, s, expanded)
    requires |s.stack| > 0
    ensures Inv(arena, fn, skipVisited, root, Step(arena, fn, skipVisited, s), ex')
    ensures Pending(arena, Step(arena, fn, skipVisited, s).stack, ex') < Pending(arena, s.stack, expanded)
  {
    var e := s.stack[|s.stack| - 1];
    var u := Unvisited(arena[e].operands, s.visited);
    if skipVisited && e in s.visited {
      SkipInv(arena, fn, skipVisited, root, s, expanded);
      ex' := expanded[..|s.stack| - 1];
    } else if |u| > 0 {
      ex' := ExpandInv(arena, fn, skipVisited, root, s, expanded, u);
    } else {
      NoneUnvisited(arena[e].operands, s.visited);
      CombineInv(arena, fn, skipVisited, root, s, expanded);
      ex' := expanded[..|s.stack| - 1];
    }
  }

  /** Once the stack is empty, every node below the root is in `visited`. */
  lemma {:induction false} ReachableVisited<R(!new)>(arena: seq<Node>, fn: (nat, seq<R>) --> R, root: nat,
                                                     visited: map<nat, R>, calls: seq<nat>, i: nat)
    requires Acyclic(arena) && Defined(arena, fn) && VisitedOk(arena, fn, root, visited, calls)
    requires root in visited && Reachable(arena, root, i)
    ensures i in visited
    decreases root - i
  {
    if i != root {
      var p :| i < p <= root && Reachable(arena, root, p) && i in arena[p].operands;
      ReachableVisited(arena, fn, root, visited, calls, p);
      var k :| 0 <= k < |arena[p].operands| && arena[p].operands[k] == i;
    }
  }

  // ---------------------------------------------------------------------
  // The visitor as a program

  /** The operands of a node that have no entry in `visited` yet, in
      operand order, repeats kept. */
  method UnvisitedOperands<R(!new)>(ops: seq<nat>, visited: map<nat, R>) returns (u: seq<nat>)
    ensures u == Unvisited(ops, visited)
  {
    u := [];
    for j := 0 to |ops|
      invariant u == Unvisited(ops[..j], visited)
    {
      assert ops[..j + 1][..j] == ops[..j];
      if ops[j] !in visited {
        u := u + [ops[j]];
      }
    }
    assert ops[..|ops|] == ops;
  }

  /** Push every element of `u`, first element first. */
  method PushAll(stack: seq<nat>, u: seq<nat>) returns (stack': seq<nat>)
    ensures stack' == stack + u
  {
    stack' := stack;
    for j := 0 to |u|
      invariant stack' == stack + u[..j]
    {
      assert u[..j + 1] == u[..j] + [u[j]];
      stack' := stack' + [u[j]];
    }
    assert u[..|u|] == u;
  }

  /** One pass of the loop body as written: pop a node; if some operand has
      no entry yet, push the node back with those operands above it,
      otherwise combine it.  `calls` is ghost. */
  method Iterate<R(!new)>(arena: seq<Node>, fn: (nat, seq<R>) --> R,
                          stack: seq<nat>, visited: map<nat, R>, ghost calls: seq<nat>)
    returns (stack': seq<nat>, visited': map<nat, R>, ghost calls': seq<nat>)
    requires Defined(arena, fn) && |stack| > 0 && stack[|stack| - 1] < |arena|
    ensures Visit(stack', visited', calls') == Step(arena, fn, false, Visit(stack, visited, calls))
  {
    var e := stack[|stack| - 1];
    stack' := stack[..|stack| - 1];
    visited', calls' := visited, calls;
    var ops := arena[e].operands;
    var unvisited := UnvisitedOperands(ops, visited);
    if |unvisited| > 0 {
      // not ready yet: put the node back, its unvisited operands above it
      assert stack' + [e] == stack;
      stack' := PushAll(stack' + [e], unvisited);
    } else {
      NoneUnvisited(ops, visited);
      var results := OperandEntries(ops, visited);
      DefinedAt(arena, fn, e, results);
      visited' := visited[e := fn(e, results)];
      calls' := calls + [e];
    }
  }

  /** The corrected loop body: a popped node that has an entry already is
      dropped. */
  method IterateMemo<R(!new)>(arena: seq<Node>, fn: (nat, seq<R>) --> R,
                              stack: seq<nat>, visited: map<nat, R>, ghost calls: seq<nat>)
    returns (stack': seq<nat>, visited': map<nat, R>, ghost calls': seq<nat>)
    requires Defined(arena, fn) && |stack| > 0 && stack[|stack| - 1] < |arena|
    ensures Visit(stack', visited', calls') == Step(arena, fn, true, Visit(stack, visited, calls))
  {
    if stack[|stack| - 1] in visited {
      stack', visited', calls' := stack[..|stack| - 1], visited, calls;
    } else {
      stack', visited', calls' := Iterate(arena, fn, stack, visited, calls);
    }
  }

  /** `postvisitor` as written: a popped node is combined whenever all its
      operands have entries, even if it has one already.  The ghost `calls`
      lists the nodes `fn` was applied to, in order; the ghost `trace` lists
      the states of the loop. */
  method PostVisit<R(!new)>(arena: seq<Node>, root: nat, fn: (nat, seq<R>) --> R)
    returns (r: R, ghost calls: seq<nat>, ghost trace: seq<Visit<R>>)
    requires Acyclic(arena) && Defined(arena, fn) && root < |arena|
    ensures r == Fold(arena, fn, root)
    ensures forall i :: i in calls <==> Reachable(arena, root, i)
    ensures forall j :: 0 <= j < |calls| ==> OperandsBefore(arena, calls, j)
    ensures NoSharing(arena, root) ==> Distinct(calls)
    ensures IsRun(arena, fn, false, root, trace)
    ensures trace[|trace| - 1].stack == [] && trace[|trace| - 1].calls == calls
  {
    var stack: seq<nat> := [root];
    var visited: map<nat, R> := map[];
    calls := [];
    trace := [Visit(stack, visited, calls)];
    ghost var expanded := [false];
    InitialInv(arena, fn, false, root);
    while |stack| > 0
      invariant Inv(arena, fn, false, root, Visit(stack, visited, calls), expanded)
      invariant IsRun(arena, fn, false, root, trace) && trace[|trace| - 1] == Visit(stack, visited, calls)
      decreases Pending(arena, stack, expanded)
    {
      ghost var s := Visit(stack, visited, calls);
      ghost var ex' := StepInv(arena, fn, false, root, s, expanded);
      PopFacts(arena, fn, false, root, s, expanded);
      stack, visited, calls := Iterate(arena, fn, stack, visited, calls);
      RunExtend(arena, fn, false, root, trace, Visit(stack, visited, calls));
      trace := trace + [Visit(stack, visited, calls)];
      expanded := ex';
    }
    Finish(arena, fn, false, root, visited, calls, expanded);
    r := visited[root];
  }

  /** `postvisitor` corrected to skip a popped node that already has an
      entry: every node below the root is combined exactly once. */
  method PostVisitMemo<R(!new)>(arena: seq<Node>, root: nat, fn: (nat, seq<R>) --> R)
    returns (r: R, ghost calls: seq<nat>, ghost trace: seq<Visit<R>>)
    requires Acyclic(arena) && Defined(arena, fn) && root < |arena|
    ensures r == Fold(arena, fn, root)
    ensures forall i :: i in calls <==> Reachable(arena, root, i)
    ensures forall j :: 0 <= j < |calls| ==> OperandsBefore(arena, calls, j)
    ensures Distinct(calls) && |calls| == |Below(arena, root)|
    ensures IsRun(arena, fn, true, root, trace)
    ensures trace[|trace| - 1].stack == [] && trace[|trace| - 1].calls == calls
  {
    var stack: seq<nat> := [root];
    var visited: map<nat, R> := map[];
    calls := [];
    trace := [Visit(stack, visited, calls)];
    ghost var expanded := [false];
    InitialInv(arena, fn, true, root);
    while |stack| > 0
      invariant Inv(arena, fn, true, root, Visit(stack, visited, calls), expanded)
      invariant IsRun(arena, fn, true, root, trace) && trace[|trace| - 1] == Visit(stack, visited, calls)
      decreases Pending(arena, stack, expanded)
    {
      ghost var s := Visit(stack, visited, calls);
      ghost var ex' := StepInv(arena, fn, true, root, s, expanded);
      PopFacts(arena, fn, true, root, s, expanded);
      stack, visited, calls := IterateMemo(arena, fn, stack, visited, calls);
      RunExtend(arena, fn, true, root, trace, Visit(stack, visited, calls));
      trace := trace + [Visit(stack, visited, calls)];
      expanded := ex';
    }
    Finish(arena, fn, true, root, visited, calls, expanded);
    DistinctCount(calls, Below(arena, root));
    r := visited[root];
  }

  lemma PopFacts<R(!new)>(arena: seq<Node>, fn: (nat, seq<R>) --> R, skipVisited: bool, root: nat,
                          s: Visit<R>, expanded: seq<bool>)
    requires Acyclic(arena) && Defined(arena, fn) && Inv(arena, fn, skipVisited, root, s, expanded)
    requires |s.stack| > 0
    ensures s.stack[|s.stack| - 1] < |arena|
  {
  }

  lemma DefinedAt<R(!new)>(arena: seq<Node>, fn: (nat, seq<R>) --> R, i: nat, rs: seq<R>)
    requires Defined(arena, fn) && i < |arena| && |rs| == |arena[i].operands|
    ensures fn.requires(i, rs)
  {
  }

  /** What the invariant gives once the stack is empty. */
  lemma Finish<R(!new)>(arena: seq<Node>, fn: (nat, seq<R>) --> R, skipVisited: bool, root: nat,
                        visited: map<nat, R>, calls: seq<nat>, expanded: seq<bool>)
    requires Acyclic(arena) && Defined(arena, fn) && Inv(arena, fn, skipVisited, root, Visit([], visited, calls), expanded)
    ensures root in visited && visited[root] == Fold(arena, fn, root)
    ensures forall i :: i in calls <==> Reachable(arena, root, i)
  {
    forall i ensures i in calls <==> Reachable(arena, root, i) {
      if Reachable(arena, root, i) {
        ReachableVisited(arena, fn, root, visited, calls, i);
      }
    }
  }

  /** The nodes below the root. */
  ghost function Below(arena: seq<Node>, root: nat): set<nat> {
    set i | 0 <= i <= root && Reachable(arena, root, i)
  }

  /** A repeat-free sequence that enumerates a set is as long as the set is
      large. */
  lemma {:induction false} DistinctCount(xs: seq<nat>, S: set<nat>)
    requires Distinct(xs) && forall x :: x in xs <==> x in S
    ensures |xs| == |S|
  {
    if |xs| > 0 {
      var last := xs[|xs| - 1];
      var xs' := xs[..|xs| - 1];
      assert Distinct(xs');
      assert forall x :: x in xs' <==> x in S - {last} by {
        forall x ensures x in xs' <==> x in S - {last} {
          if x in xs' {
            var j :| 0 <= j < |xs'| && xs'[j] == x;
            assert xs[j] == x && j < |xs| - 1;
          }
          if x in S - {last} {
            assert x in xs;
            var j :| 0 <= j < |xs| && xs[j] == x;
            assert j != |xs| - 1;
            assert xs'[j] == x;
          }
        }
      }
      DistinctCount(xs', S - {last});
    } else {
      assert forall x :: x !in S;
      assert S == {};
    }
  }

  // ---------------------------------------------------------------------
  // A shared operand is combined twice

  /** `x + x`: node 1 adds node 0, the symbol `x`, to itself. */
  const SharedArena: seq<Node> := [Node(SymbolKind("x"), []), Node(OperatorKind(AddOp), [0, 0])]

  /** The states of the loop as written on `x + x`, where `x` is combined
      to `v` and the sum to `w`. */
  function SharedState<R>(i: nat, v: R, w: R): Visit<R>
    requires i <= 4
  {
    if i == 0 then Visit([1], map[], [])
    else if i == 1 then Visit([1, 0, 0], map[], [])
    else if i == 2 then Visit([1, 0], map[0 := v], [0])
    else if i == 3 then Visit([1], map[0 := v], [0, 0])
    else Visit([], map[0 := v][1 := w], [0, 0, 1])
  }

  lemma UnvisitedTwice<R(!new)>(visited: map<nat, R>)
    ensures Unvisited([0, 0], visited) == if 0 in visited then [] else [0, 0]
  {
    assert [0, 0][..1] == [0];
    assert [0][..0] == [];
  }

  lemma SharedStep0<R(!new)>(fn: (nat, seq<R>) --> R)
    requires Defined(SharedArena, fn)
    ensures var v := fn(0, []); var w := fn(1, [v, v]);
      StepsTo(SharedArena, fn, false, SharedState(0, v, w), SharedState(1, v, w))
  {
    var empty: map<nat, R> := map[];
    var s0 := Visit([1], empty, []);
    UnvisitedTwice(empty);
    assert Step(SharedArena, fn, false, s0) == Expanded(SharedArena, s0);
    assert [1] + [0, 0] == [1, 0, 0];
  }

  lemma SharedStep1<R(!new)>(fn: (nat, seq<R>) --> R)
    requires Defined(SharedArena, fn)
    ensures var v := fn(0, []); var w := fn(1, [v, v]);
      StepsTo(SharedArena, fn, false, SharedState(1, v, w), SharedState(2, v, w))
  {
    var empty: map<nat, R> := map[];
    assert [1, 0, 0][..2] == [1, 0];
    assert OperandEntries([], empty) == [];
  }

  lemma SharedStep2<R(!new)>(fn: (nat, seq<R>) --> R)
    requires Defined(SharedArena, fn)
    ensures var v := fn(0, []); var w := fn(1, [v, v]);
      StepsTo(SharedArena, fn, false, SharedState(2, v, w), SharedState(3, v, w))
  {
    var v := fn(0, []);
    assert [1, 0][..1] == [1];
    assert map[0 := v][0 := v] == map[0 := v];
    assert OperandEntries([], map[0 := v]) == [];
  }

  lemma SharedStep3<R(!new)>(fn: (nat, seq<R>) --> R)
    requires Defined(SharedArena, fn)
    ensures var v := fn(0, []); var w := fn(1, [v, v]);
      StepsTo(SharedArena, fn, false, SharedState(3, v, w), SharedState(4, v, w))
  {
    var v := fn(0, []);
    UnvisitedTwice(map[0 := v]);
    assert OperandEntries([0, 0], map[0 := v]) == [v, v];
  }

  /** On `x + x` the loop as written pushes `x` twice, under the sum, and
      combines it once for each push: whatever `fn` is, the run that empties
      the stack has applied `fn` to `x`, to `x` again, then to the sum. */
  lemma SharedOperandCombinedTwice<R(!new)>(fn: (nat, seq<R>) --> R, trace: seq<Visit<R>>)
    requires Defined(SharedArena, fn) && IsRun(SharedArena, fn, false, 1, trace)
    requires trace[|trace| - 1].stack == []
    ensures trace[|trace| - 1].calls == [0, 0, 1]
    ensures !Distinct(trace[|trace| - 1].calls)
  {
    var A := SharedArena;
    var v := fn(0, []);
    var w := fn(1, [v, v]);
    SharedStep0(fn);
    SharedStep1(fn);
    SharedStep2(fn);
    SharedStep3(fn);
    assert trace[0] == SharedState(0, v, w);
    assert |trace| > 1 && trace[1] == SharedState(1, v, w);
    assert |trace| > 2 && trace[2] == SharedState(2, v, w);
    assert |trace| > 3 && trace[3] == SharedState(3, v, w);
    assert |trace| > 4 && trace[4] == SharedState(4, v, w);
    assert |trace| > 5 ==> StepsTo(A, fn, false, trace[4], trace[5]);
    assert |trace| == 5;
    assert [0, 0, 1][0] == [0, 0, 1][1];
  }
}
