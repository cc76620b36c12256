/**
 * The evaluation loop as a function: one `Step` per iteration of the outer
 * loop of `execute`, over the cursor into the compiled node list and the
 * stack. `Run` iterates steps to the final result and the list of debugger
 * calls made.
 */
module Interpreter {
  import opened Wrappers
  import opened Values
  import opened Operators
  import opened Breakpoints

  /**
   * A compiled node. A marker (a line label) carries a source position; a
   * value node carries what evaluating it gives; an operator node carries its
   * code, its token name and what it gives when evaluated as a value (which
   * happens when it starts a statement).
   */
  datatype Node =
    | Marker(source: string, line: int)
    | Val(eval: Result<Value, Error>)
    | Op(code: OpCode, name: string, eval: Result<Value, Error>)

  /** What evaluating a node gives; a line label taken as an operand gives null. */
  function NodeValue(n: Node): Result<Value, Error> {
    match n
    case Marker(_, _) => Ok(Null)
    case Val(e) => e
    case Op(_, _, e) => e
  }

  predicate IsTernaryElse(n: Node) {
    n.Op? && n.code == TernaryElse
  }

  /** A stack entry: a value or a pending operator code. */
  datatype Entry = V(v: Value) | O(code: OpCode)

  /** One call of the debugger's `onBreak`. */
  datatype Hit = Hit(source: string, line: int)

  /** An operator table: (operator, right operand, left operand) to the reduced value, none for a code without a case, or an error. */
  type Reduction = (OpCode, Value, Value) -> Result<Option<Value>, Error>

  /**
   * What an evaluation reads: the operator table, the debug flag it was called
   * with, the registry and whether a debugger is set. The runtime fixes the
   * table to `Dispatch` over its helper capabilities; the evaluation itself
   * holds for any table.
   */
  datatype Env = Env(reduce: Reduction, debug: bool, breakpoints: Option<Registry>, hasDebugger: bool)

  /** Between two nodes the stack holds at most one entry, and that one a value. */
  predicate Settled(stk: seq<Entry>) {
    stk == [] || (|stk| == 1 && stk[0].V?)
  }

  /** Does a marker at (source, line) stop in the debugger? Debug mode is on when asked for or when a registry exists. */
  predicate IsBreakpoint(env: Env, source: string, line: int) {
    (env.debug || env.breakpoints.Some?) && Registered(env.breakpoints, source, line)
  }

  /**
   * Where evaluation resumes after a false condition read with the cursor at
   * `i`: just past the first `TERNARY_ELSE` at or after `i`, or at the end.
   */
  function SkipBranch(nodes: seq<Node>, i: nat): (j: nat)
    requires i <= |nodes|
    ensures i <= j <= |nodes|
    decreases |nodes| - i
  {
    if i == |nodes| then i
    else if IsTernaryElse(nodes[i]) then i + 1
    else SkipBranch(nodes, i + 1)
  }

  /**
   * The catch of NullPointerException around the whole loop: it becomes an
   * incomplete-statement error when the current node is an operator and no
   * node follows; any other error passes through.
   */
  function OuterCatch(e: Error, tk: Node, atEnd: bool): Error {
    if e == NullPointer && tk.Op? && atEnd then IncompleteStatement(tk.name) else e
  }

  /** What one iteration leaves: the cursor and stack evaluation goes on with, or the end of the run; with the debugger calls it made. */
  datatype Transition =
    | Continue(next: nat, stk: seq<Entry>, hits: seq<Hit>)
    | Stop(result: Result<Value, Error>, hits: seq<Hit>)

  /** A line label, with the cursor `j` just past it. */
  function MarkerStep(tk: Node, j: nat, stk: seq<Entry>, env: Env): (t: Transition)
    requires tk.Marker?
    ensures t.Continue? ==> t.next == j && t.stk == stk
    ensures t.hits != [] ==> t.Continue? && t.hits == [Hit(tk.source, tk.line)]
    ensures t.Stop? ==> t.result == Err(NoDebugger) && t.hits == []
  {
    if IsBreakpoint(env, tk.source, tk.line) then
      if env.hasDebugger then Continue(j, stk, [Hit(tk.source, tk.line)])
      else Stop(Err(NoDebugger), [])
    else Continue(j, stk, [])
  }

  /** `TERNARY`, with the cursor `j` just past it: pop the condition; on false skip the "then" branch; clear the stack. */
  function TernaryStep(tk: Node, nodes: seq<Node>, j: nat, cond: Value): (t: Transition)
    requires tk.Op? && j <= |nodes|
    ensures t.Continue? ==> j <= t.next <= |nodes| && t.stk == []
    ensures t.hits == []
  {
    match cond
    case Bool(b) => Continue(if b then j else SkipBranch(nodes, j), [], [])
    case Null => Stop(Err(OuterCatch(NullPointer, tk, j == |nodes|)), [])
    case _ => Stop(Err(ClassCast), [])
  }

  /** Any other operator, with the cursor `j` just past it: fetch and evaluate the right operand, then reduce (left, operator, right) to one value. */
  function BinaryStep(tk: Node, nodes: seq<Node>, j: nat, left: Value, env: Env): (t: Transition)
    requires tk.Op? && j <= |nodes|
    ensures t.Continue? ==> t.next == j + 1 <= |nodes| && Settled(t.stk)
    ensures t.hits == []
  {
    if j == |nodes| then Stop(Err(OuterCatch(NullPointer, tk, true)), [])
    else
      match NodeValue(nodes[j])
      case Err(e) => Stop(Err(OuterCatch(e, tk, j + 1 == |nodes|)), [])
      case Ok(right) =>
        match env.reduce(tk.code, right, left)
        case Err(e) => Stop(Err(e), [])
        case Ok(None) => Continue(j + 1, [], [])
        case Ok(Some(x)) => Continue(j + 1, [V(x)], [])
  }

  /** A value or operator node, with the cursor `j` just past it, once the stack holds the value `top`. */
  function NodeStep(tk: Node, nodes: seq<Node>, j: nat, top: Value, env: Env): (t: Transition)
    requires !tk.Marker? && j <= |nodes|
    ensures t.Continue? ==> j <= t.next <= |nodes| && Settled(t.stk)
    ensures t.hits == []
  {
    if !tk.Op? then Continue(j, [V(top)], [])
    else if tk.code == Ternary then TernaryStep(tk, nodes, j, top)
    else if tk.code == TernaryElse then Stop(Ok(top), [])
    else if tk.code == EndOfStmt then Continue(j, if j < |nodes| then [] else [V(top)], [])
    else BinaryStep(tk, nodes, j, top, env)
  }

  /** What a non-marker node makes of the stack before its operator is looked at. */
  function Top(tk: Node, stk: seq<Entry>): Result<Value, Error>
    requires Settled(stk)
  {
    if stk == [] then NodeValue(tk) else Ok(stk[0].v)
  }

  /** One iteration of the outer loop at cursor `i`: it consumes at least one node and leaves the stack settled. */
  function Step(nodes: seq<Node>, i: nat, stk: seq<Entry>, env: Env): (t: Transition)
    requires i < |nodes| && Settled(stk)
    ensures t.Continue? ==> i < t.next <= |nodes| && Settled(t.stk)
    ensures t.hits != [] ==> nodes[i].Marker? && t.Continue? && t.hits == [Hit(nodes[i].source, nodes[i].line)]
  {
    var tk := nodes[i];
    if tk.Marker? then MarkerStep(tk, i + 1, stk, env)
    else
      match Top(tk, stk)
      case Err(e) => Stop(Err(OuterCatch(e, tk, i + 1 == |nodes|)), [])
      case Ok(v) => NodeStep(tk, nodes, i + 1, v, env)
  }

  datatype Outcome = Outcome(result: Result<Value, Error>, hits: seq<Hit>)

  function Prepend(hits: seq<Hit>, o: Outcome): Outcome {
    Outcome(o.result, hits + o.hits)
  }

  /** Runs from cursor `i` to the end; there the result is the stack top, null for an empty stack. */
  function Run(nodes: seq<Node>, i: nat, stk: seq<Entry>, env: Env): (o: Outcome)
    requires i <= |nodes| && Settled(stk)
    decreases |nodes| - i
  {
    if i == |nodes| then Outcome(Ok(if stk == [] then Null else stk[0].v), [])
    else
      match Step(nodes, i, stk, env)
      case Stop(r, h) => Outcome(r, h)
      case Continue(j, stk', h) => Prepend(h, Run(nodes, j, stk', env))
  }

  /** The whole evaluation of a compiled node list, starting from an empty stack. */
  function Evaluate(nodes: seq<Node>, env: Env): Outcome {
    Run(nodes, 0, [], env)
  }

  lemma RunUnfold(nodes: seq<Node>, i: nat, stk: seq<Entry>, env: Env)
    requires i < |nodes| && Settled(stk)
    ensures var t := Step(nodes, i, stk, env);
      Run(nodes, i, stk, env) == if t.Stop? then Outcome(t.result, t.hits) else Prepend(t.hits, Run(nodes, t.next, t.stk, env))
  {
  }

  /** Every hit is at a breakpoint of `env`. */
  predicate AllBreakpoints(hits: seq<Hit>, env: Env) {
    forall k :: 0 <= k < |hits| ==> IsBreakpoint(env, hits[k].source, hits[k].line)
  }

  /** The debugger is called only at registered breakpoints while debugging, and only when one is set. */
  lemma {:induction false} RunHitsAreBreakpoints(nodes: seq<Node>, i: nat, stk: seq<Entry>, env: Env)
    requires i <= |nodes| && Settled(stk)
    ensures AllBreakpoints(Run(nodes, i, stk, env).hits, env)
    ensures Run(nodes, i, stk, env).hits != [] ==> env.hasDebugger
    decreases |nodes| - i
  {
    if i < |nodes| {
      var t := Step(nodes, i, stk, env);
      if t.hits != [] {
        assert t == MarkerStep(nodes[i], i + 1, stk, env);
        assert IsBreakpoint(env, nodes[i].source, nodes[i].line) && env.hasDebugger;
      }
      if t.Continue? {
        RunHitsAreBreakpoints(nodes, t.next, t.stk, env);
        var o, rest := Run(nodes, i, stk, env), Run(nodes, t.next, t.stk, env);
        assert o.hits == t.hits + rest.hits;
        forall k | 0 <= k < |o.hits|
          ensures IsBreakpoint(env, o.hits[k].source, o.hits[k].line)
        {
          if k >= |t.hits| {
            assert o.hits[k] == rest.hits[k - |t.hits|];
          }
        }
      }
    }
  }

  lemma PrependAssoc(h1: seq<Hit>, h2: seq<Hit>, o: Outcome)
    ensures Prepend(h1, Prepend(h2, o)) == Prepend(h1 + h2, o)
  {
  }
}
