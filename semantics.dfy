/**
 * What the evaluation loop promises, stated over `Interpreter.Run`: markers,
 * the ternary operator, statement separators, incomplete statements, the
 * binary reduction and the debugger protocol.
 */
module Semantics {
  import opened Wrappers
  import opened Values
  import opened Operators
  import opened Breakpoints
  import opened Interpreter

  // ---------------------------------------------------------------------------
  // Locality: what is left to evaluate is all that matters.

  lemma SuffixTail(a: seq<Node>, i: nat, b: seq<Node>, j: nat)
    requires i < |a| && j <= |b| && a[i..] == b[j..]
    ensures j < |b| && a[i] == b[j] && a[i + 1..] == b[j + 1..]
  {
    assert a[i..][0] == a[i] && b[j..][0] == b[j];
    assert a[i..][1..] == a[i + 1..] && b[j..][1..] == b[j + 1..];
  }

  /** Skipping a false branch from equal remainders leaves equal remainders. */
  lemma {:induction false} SkipSuffix(a: seq<Node>, i: nat, b: seq<Node>, j: nat)
    requires i <= |a| && j <= |b| && a[i..] == b[j..]
    ensures a[SkipBranch(a, i)..] == b[SkipBranch(b, j)..]
    decreases |a| - i
  {
    if i < |a| {
      SuffixTail(a, i, b, j);
      if !IsTernaryElse(a[i]) {
        SkipSuffix(a, i + 1, b, j + 1);
      }
    }
  }

  /** Two transitions taken over `a` and `b` agree: the same end, or the same stack and hits with equal remainders after them. */
  predicate Matching(ta: Transition, a: seq<Node>, tb: Transition, b: seq<Node>) {
    && ta.Stop? == tb.Stop?
    && (ta.Stop? ==> ta == tb)
    && (ta.Continue? ==> ta.stk == tb.stk && ta.hits == tb.hits && ta.next <= |a| && tb.next <= |b| && a[ta.next..] == b[tb.next..])
  }

  lemma TernaryStepSuffix(tk: Node, a: seq<Node>, i: nat, b: seq<Node>, j: nat, cond: Value)
    requires tk.Op? && i <= |a| && j <= |b| && a[i..] == b[j..]
    ensures Matching(TernaryStep(tk, a, i, cond), a, TernaryStep(tk, b, j, cond), b)
  {
    SkipSuffix(a, i, b, j);
  }

  lemma BinaryStepSuffix(tk: Node, a: seq<Node>, i: nat, b: seq<Node>, j: nat, left: Value, env: Env)
    requires tk.Op? && i <= |a| && j <= |b| && a[i..] == b[j..]
    ensures Matching(BinaryStep(tk, a, i, left, env), a, BinaryStep(tk, b, j, left, env), b)
  {
    if i < |a| {
      SuffixTail(a, i, b, j);
    }
  }

  lemma NodeStepSuffix(tk: Node, a: seq<Node>, i: nat, b: seq<Node>, j: nat, top: Value, env: Env)
    requires !tk.Marker? && i <= |a| && j <= |b| && a[i..] == b[j..]
    ensures Matching(NodeStep(tk, a, i, top, env), a, NodeStep(tk, b, j, top, env), b)
  {
    if tk.Op? && tk.code == Ternary {
      TernaryStepSuffix(tk, a, i, b, j, top);
    } else if tk.Op? && tk.code != TernaryElse && tk.code != EndOfStmt {
      BinaryStepSuffix(tk, a, i, b, j, top, env);
    } else {
      assert |a| - i == |b| - j;
    }
  }

  /** One step from equal remainders: the same outcome, and equal remainders after it. */
  lemma StepSuffix(a: seq<Node>, i: nat, b: seq<Node>, j: nat, stk: seq<Entry>, env: Env)
    requires i < |a| && j <= |b| && a[i..] == b[j..] && Settled(stk)
    ensures j < |b| && Matching(Step(a, i, stk, env), a, Step(b, j, stk, env), b)
  {
    SuffixTail(a, i, b, j);
    var tk := a[i];
    if !tk.Marker? && Top(tk, stk).Ok? {
      NodeStepSuffix(tk, a, i + 1, b, j + 1, Top(tk, stk).value, env);
    }
  }

  /** Evaluation from a cursor depends only on the nodes from the cursor on. */
  lemma {:induction false} RunSuffix(a: seq<Node>, i: nat, b: seq<Node>, j: nat, stk: seq<Entry>, env: Env)
    requires i <= |a| && j <= |b| && a[i..] == b[j..] && Settled(stk)
    ensures Run(a, i, stk, env) == Run(b, j, stk, env)
    decreases |a| - i
  {
    assert |a| - i == |b| - j;
    if i < |a| {
      StepSuffix(a, i, b, j, stk, env);
      RunUnfold(a, i, stk, env);
      RunUnfold(b, j, stk, env);
      var ta, tb := Step(a, i, stk, env), Step(b, j, stk, env);
      if ta.Continue? {
        RunSuffix(a, ta.next, b, tb.next, ta.stk, env);
      }
    }
  }

  /** Running from cursor `j` is running the remaining nodes on their own. */
  lemma RunFromCursor(nodes: seq<Node>, j: nat, stk: seq<Entry>, env: Env)
    requires j <= |nodes| && Settled(stk)
    ensures Run(nodes, j, stk, env) == Run(nodes[j..], 0, stk, env)
  {
    assert nodes[j..] == nodes[j..][0..];
    RunSuffix(nodes, j, nodes[j..], 0, stk, env);
  }

  // ---------------------------------------------------------------------------
  // Line labels and the debugger

  /** A marker consumes only itself and leaves the stack alone; it calls the debugger exactly when it is a breakpoint. */
  lemma MarkerTransparent(nodes: seq<Node>, i: nat, stk: seq<Entry>, env: Env)
    requires i < |nodes| && nodes[i].Marker? && Settled(stk)
    ensures var m := nodes[i];
      Run(nodes, i, stk, env) ==
        if !IsBreakpoint(env, m.source, m.line) then Run(nodes, i + 1, stk, env)
        else if env.hasDebugger then Prepend([Hit(m.source, m.line)], Run(nodes, i + 1, stk, env))
        else Outcome(Err(NoDebugger), [])
    ensures env.breakpoints.None? || nodes[i].source !in env.breakpoints.value ==>
      Run(nodes, i, stk, env) == Run(nodes, i + 1, stk, env)
  {
    RunUnfold(nodes, i, stk, env);
  }

  /** A breakpoint hit before a value: the debugger is called once with that position, then the value is the result. */
  lemma BreakpointExample(v: Value, env: Env)
    requires Registered(env.breakpoints, "a.expr", 5) && env.hasDebugger
    ensures Evaluate([Marker("a.expr", 5), Val(Ok(v))], env) == Outcome(Ok(v), [Hit("a.expr", 5)])
  {
    var nodes := [Marker("a.expr", 5), Val(Ok(v))];
    MarkerTransparent(nodes, 0, [], env);
    ValueNode(nodes, 1, [], env);
  }

  /** The debug flag a caller passes has no effect: a marker can only stop where a registry exists, which turns debugging on anyway. */
  lemma {:induction false} DebugFlagIrrelevant(nodes: seq<Node>, i: nat, stk: seq<Entry>, env: Env, debug: bool)
    requires i <= |nodes| && Settled(stk)
    ensures Run(nodes, i, stk, env) == Run(nodes, i, stk, env.(debug := debug))
    decreases |nodes| - i
  {
    var env' := env.(debug := debug);
    if i < |nodes| {
      assert Step(nodes, i, stk, env) == Step(nodes, i, stk, env');
      RunUnfold(nodes, i, stk, env);
      RunUnfold(nodes, i, stk, env');
      var t := Step(nodes, i, stk, env);
      if t.Continue? {
        DebugFlagIrrelevant(nodes, t.next, t.stk, env, debug);
      }
    }
  }

  /** From cursor `i` on, a program of markers and evaluable value nodes only. */
  predicate Plain(nodes: seq<Node>, i: nat) {
    forall k :: i <= k < |nodes| ==> nodes[k].Marker? || (nodes[k].Val? && nodes[k].eval.Ok?)
  }

  /** The breakpoint positions of the markers from cursor `i` on, in order. */
  function BreakHits(nodes: seq<Node>, i: nat, env: Env): seq<Hit>
    requires i <= |nodes|
    decreases |nodes| - i
  {
    if i == |nodes| then []
    else (if nodes[i].Marker? && IsBreakpoint(env, nodes[i].source, nodes[i].line) then [Hit(nodes[i].source, nodes[i].line)] else [])
         + BreakHits(nodes, i + 1, env)
  }

  /**
   * In a program of markers and values the debugger is called exactly once per
   * marker at a breakpoint, in order, and the run succeeds; with no debugger it
   * fails exactly when some marker is at a breakpoint.
   */
  lemma {:induction false} PlainProgramHits(nodes: seq<Node>, i: nat, stk: seq<Entry>, env: Env)
    requires i <= |nodes| && Plain(nodes, i) && Settled(stk)
    ensures env.hasDebugger ==> Run(nodes, i, stk, env).result.Ok? && Run(nodes, i, stk, env).hits == BreakHits(nodes, i, env)
    ensures !env.hasDebugger ==> (Run(nodes, i, stk, env).result == Err(NoDebugger) <==> BreakHits(nodes, i, env) != [])
    decreases |nodes| - i
  {
    if i < |nodes| {
      RunUnfold(nodes, i, stk, env);
      var t := Step(nodes, i, stk, env);
      if t.Continue? {
        PlainProgramHits(nodes, i + 1, t.stk, env);
      }
    }
  }

  // ---------------------------------------------------------------------------
  // Values, the end of the nodes and statement separators

  /** A value node starts a statement on an empty stack; on a non-empty one it is passed over. */
  lemma ValueNode(nodes: seq<Node>, i: nat, stk: seq<Entry>, env: Env)
    requires i < |nodes| && nodes[i].Val? && Settled(stk)
    ensures var x := nodes[i].eval;
      && (stk == [] && x.Ok? ==> Run(nodes, i, stk, env) == Run(nodes, i + 1, [V(x.value)], env))
      && (stk == [] && x.Err? ==> Run(nodes, i, stk, env) == Outcome(Err(x.error), []))
      && (stk != [] ==> Run(nodes, i, stk, env) == Run(nodes, i + 1, stk, env))
  {
    RunUnfold(nodes, i, stk, env);
    if stk != [] {
      assert stk == [V(stk[0].v)];
    }
  }

  /** At the end of the nodes the result is the stack top, null for an empty stack. */
  lemma EndOfNodes(nodes: seq<Node>, v: Value, env: Env)
    ensures Run(nodes, |nodes|, [V(v)], env) == Outcome(Ok(v), [])
    ensures Run(nodes, |nodes|, [], env) == Outcome(Ok(Null), [])
  {
  }

  /** `END_OF_STMT` clears the stack exactly when more nodes follow; at the end the last value is the result. */
  lemma EndOfStatement(nodes: seq<Node>, i: nat, top: Value, env: Env)
    requires i < |nodes| && nodes[i].Op? && nodes[i].code == EndOfStmt
    ensures Run(nodes, i, [V(top)], env) ==
      if i + 1 < |nodes| then Run(nodes, i + 1, [], env) else Outcome(Ok(top), [])
  {
    RunUnfold(nodes, i, [V(top)], env);
  }

  /** `s1; s2`: the value of the first statement is discarded, only the second one is returned. */
  lemma StatementsDiscardEarlierValue(a: Value, name: string, e: Result<Value, Error>, s2: seq<Node>, env: Env)
    requires s2 != []
    ensures Evaluate([Val(Ok(a)), Op(EndOfStmt, name, e)] + s2, env) == Evaluate(s2, env)
  {
    var nodes := [Val(Ok(a)), Op(EndOfStmt, name, e)] + s2;
    ValueNode(nodes, 0, [], env);
    EndOfStatement(nodes, 1, a, env);
    assert nodes[2..] == s2[0..];
    RunSuffix(nodes, 2, s2, 0, [], env);
  }

  /** A statement closed by a final separator keeps its value as the result. */
  lemma TrailingSeparatorKeepsValue(a: Value, name: string, e: Result<Value, Error>, env: Env)
    ensures Evaluate([Val(Ok(a)), Op(EndOfStmt, name, e)], env) == Outcome(Ok(a), [])
  {
    var nodes := [Val(Ok(a)), Op(EndOfStmt, name, e)];
    ValueNode(nodes, 0, [], env);
    EndOfStatement(nodes, 1, a, env);
  }

  // ---------------------------------------------------------------------------
  // The ternary operator

  /** On a true condition evaluation goes on into the "then" branch; on a false one it resumes after the first `TERNARY_ELSE`. */
  lemma TernaryChoice(nodes: seq<Node>, i: nat, b: bool, env: Env)
    requires i < |nodes| && nodes[i].Op? && nodes[i].code == Ternary
    ensures Run(nodes, i, [V(Bool(b))], env) ==
      Run(nodes, if b then i + 1 else SkipBranch(nodes, i + 1), [], env)
  {
    RunUnfold(nodes, i, [V(Bool(b))], env);
  }

  /** A condition that is not a boolean: null is a NullPointerException (an incomplete statement at the end), anything else a ClassCastException. */
  lemma TernaryBadCondition(nodes: seq<Node>, i: nat, c: Value, env: Env)
    requires i < |nodes| && nodes[i].Op? && nodes[i].code == Ternary && !c.Bool?
    ensures Run(nodes, i, [V(c)], env).result ==
      if c.Null? then (if i + 1 == |nodes| then Err(IncompleteStatement(nodes[i].name)) else Err(NullPointer))
      else Err(ClassCast)
  {
    RunUnfold(nodes, i, [V(c)], env);
  }

  /** `TERNARY_ELSE` reached with a value on the stack ends the run with that value: the end of a taken "then" branch. */
  lemma ElseEndsRun(nodes: seq<Node>, i: nat, top: Value, env: Env)
    requires i < |nodes| && IsTernaryElse(nodes[i])
    ensures Run(nodes, i, [V(top)], env) == Outcome(Ok(top), [])
  {
    RunUnfold(nodes, i, [V(top)], env);
  }

  predicate NoTernaryElse(nodes: seq<Node>, from: nat, to: nat) {
    forall k :: from <= k < to && k < |nodes| ==> !IsTernaryElse(nodes[k])
  }

  /** Skipping a false branch resumes just past the first `TERNARY_ELSE`. */
  lemma {:induction false} SkipPastElse(nodes: seq<Node>, i: nat, k: nat)
    requires i <= k < |nodes| && NoTernaryElse(nodes, i, k) && IsTernaryElse(nodes[k])
    ensures SkipBranch(nodes, i) == k + 1
    decreases k - i
  {
    if i < k {
      SkipPastElse(nodes, i + 1, k);
    }
  }

  /** Without a `TERNARY_ELSE`, skipping a false branch consumes every remaining node. */
  lemma {:induction false} SkipToEnd(nodes: seq<Node>, i: nat)
    requires i <= |nodes| && NoTernaryElse(nodes, i, |nodes|)
    ensures SkipBranch(nodes, i) == |nodes|
    decreases |nodes| - i
  {
    if i < |nodes| {
      SkipToEnd(nodes, i + 1);
    }
  }

  /**
   * The untaken branch is never evaluated: on a false condition at `i` whose
   * branch ends at the `TERNARY_ELSE` at `k`, the result is that of the nodes
   * after `k` alone, whatever the branch and the nodes before it hold.
   */
  lemma UntakenBranchIgnored(nodes: seq<Node>, i: nat, k: nat, env: Env)
    requires i < k < |nodes| && nodes[i].Op? && nodes[i].code == Ternary
    requires NoTernaryElse(nodes, i + 1, k) && IsTernaryElse(nodes[k])
    ensures Run(nodes, i, [V(Bool(false))], env) == Evaluate(nodes[k + 1..], env)
  {
    FalseResumesAfterElse(nodes, i, k, env);
    RunFromCursor(nodes, k + 1, [], env);
  }

  /** On a false condition the run resumes, with an empty stack, just past the branch's `TERNARY_ELSE`. */
  lemma FalseResumesAfterElse(nodes: seq<Node>, i: nat, k: nat, env: Env)
    requires i < k < |nodes| && nodes[i].Op? && nodes[i].code == Ternary
    requires NoTernaryElse(nodes, i + 1, k) && IsTernaryElse(nodes[k])
    ensures Run(nodes, i, [V(Bool(false))], env) == Run(nodes, k + 1, [], env)
  {
    TernaryChoice(nodes, i, false, env);
    SkipPastElse(nodes, i + 1, k);
  }

  /** `c ? a : ...` with a true condition: the "then" value is returned at `TERNARY_ELSE`, whatever follows. */
  lemma TernaryTrueReturnsAtElse(a: Value, n1: string, e1: Result<Value, Error>,
                                 n2: string, e2: Result<Value, Error>, more: seq<Node>, env: Env)
    ensures Evaluate([Val(Ok(Bool(true))), Op(Ternary, n1, e1), Val(Ok(a)), Op(TernaryElse, n2, e2)] + more, env)
            == Outcome(Ok(a), [])
  {
    var nodes := [Val(Ok(Bool(true))), Op(Ternary, n1, e1), Val(Ok(a)), Op(TernaryElse, n2, e2)] + more;
    ValueNode(nodes, 0, [], env);
    TernaryChoice(nodes, 1, true, env);
    ValueNode(nodes, 2, [], env);
    ElseEndsRun(nodes, 3, a, env);
  }

  /** `c ? a : b` with a false condition: the "then" part is skipped and the "else" part evaluated. */
  lemma TernaryFalseTakesElse(a: Value, b: Value, n1: string, e1: Result<Value, Error>,
                              n2: string, e2: Result<Value, Error>, env: Env)
    ensures Evaluate([Val(Ok(Bool(false))), Op(Ternary, n1, e1), Val(Ok(a)), Op(TernaryElse, n2, e2), Val(Ok(b))], env)
            == Outcome(Ok(b), [])
  {
    var nodes := [Val(Ok(Bool(false))), Op(Ternary, n1, e1), Val(Ok(a)), Op(TernaryElse, n2, e2), Val(Ok(b))];
    ValueNode(nodes, 0, [], env);
    TernaryChoice(nodes, 1, false, env);
    SkipPastElse(nodes, 2, 3);
    ValueNode(nodes, 4, [], env);
    EndOfNodes(nodes, b, env);
  }

  // ---------------------------------------------------------------------------
  // Binary operators

  predicate IsBinary(code: OpCode) {
    !code.Ternary? && !code.TernaryElse? && !code.EndOfStmt?
  }

  /** An operator with no node after it is an incomplete statement naming the operator's token. */
  lemma IncompleteAtEnd(nodes: seq<Node>, left: Value, env: Env)
    requires |nodes| > 0 && nodes[|nodes| - 1].Op? && IsBinary(nodes[|nodes| - 1].code)
    ensures Run(nodes, |nodes| - 1, [V(left)], env) == Outcome(Err(IncompleteStatement(nodes[|nodes| - 1].name)), [])
  {
    RunUnfold(nodes, |nodes| - 1, [V(left)], env);
  }

  /** `left op` and nothing more: an incomplete statement. */
  lemma IncompleteExpression(left: Value, code: OpCode, name: string, e: Result<Value, Error>, env: Env)
    requires IsBinary(code)
    ensures Evaluate([Val(Ok(left)), Op(code, name, e)], env) == Outcome(Err(IncompleteStatement(name)), [])
  {
    var nodes := [Val(Ok(left)), Op(code, name, e)];
    ValueNode(nodes, 0, [], env);
    IncompleteAtEnd(nodes, left, env);
  }

  /**
   * `left op right` and the rest: the pair (right, op) is pushed on the left
   * value and reduced at once to one value (none for a code without a case),
   * with which evaluation goes on; a reduction error ends the evaluation.
   */
  lemma BinaryReduction(nodes: seq<Node>, i: nat, left: Value, env: Env)
    requires i + 1 < |nodes| && nodes[i].Op? && IsBinary(nodes[i].code) && NodeValue(nodes[i + 1]).Ok?
    ensures var d := env.reduce(nodes[i].code, NodeValue(nodes[i + 1]).value, left);
      Run(nodes, i, [V(left)], env) ==
        if d.Err? then Outcome(Err(d.error), [])
        else if d.value.None? then Run(nodes, i + 2, [], env)
        else Run(nodes, i + 2, [V(d.value.value)], env)
  {
    RunUnfold(nodes, i, [V(left)], env);
  }

  /** An operand whose own evaluation fails ends the evaluation; a null fault of the very last node reads as an incomplete statement. */
  lemma OperandFails(nodes: seq<Node>, i: nat, left: Value, env: Env)
    requires i + 1 < |nodes| && nodes[i].Op? && IsBinary(nodes[i].code) && NodeValue(nodes[i + 1]).Err?
    ensures var err := NodeValue(nodes[i + 1]).error;
      Run(nodes, i, [V(left)], env).result ==
        Err(if err == NullPointer && i + 2 == |nodes| then IncompleteStatement(nodes[i].name) else err)
  {
    RunUnfold(nodes, i, [V(left)], env);
  }

  /** A line label taken as the right operand evaluates to null: the operator reduces with a null operand. */
  lemma MarkerOperandIsNull(nodes: seq<Node>, i: nat, left: Value, env: Env)
    requires i + 1 < |nodes| && nodes[i].Op? && IsBinary(nodes[i].code) && nodes[i + 1].Marker?
    ensures var d := env.reduce(nodes[i].code, Null, left);
      Run(nodes, i, [V(left)], env) ==
        if d.Err? then Outcome(Err(d.error), [])
        else if d.value.None? then Run(nodes, i + 2, [], env)
        else Run(nodes, i + 2, [V(d.value.value)], env)
  {
    RunUnfold(nodes, i, [V(left)], env);
  }
}
