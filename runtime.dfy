/**
 * The runtime object: the one thread's breakpoint registry and debugger slot,
 * the debug-administration operations on them, and the evaluation loop.
 */
module MVELRuntime {
  import opened Wrappers
  import opened Values
  import opened Operators
  import opened Breakpoints
  import opened Interpreter

  /** A debugger instance; what it does on a break is not modelled. */
  datatype Debugger = Debugger(id: nat)

  /**
   * Skipping the "then" branch of a false condition: the cursor consumes
   * nodes, without evaluating them, up to and including the first
   * `TERNARY_ELSE`, or to the end.
   */
  method SkipFalseBranch(nodes: seq<Node>, start: nat) returns (cursor: nat)
    requires start <= |nodes|
    ensures cursor == SkipBranch(nodes, start)
  {
    cursor := start;
    var found := false;
    while !found && cursor < |nodes|
      invariant start <= cursor <= |nodes|
      invariant SkipBranch(nodes, start) == if found then cursor else SkipBranch(nodes, cursor)
      decreases |nodes| - cursor
    {
      found := IsTernaryElse(nodes[cursor]);
      cursor := cursor + 1;
    }
  }

  /**
   * Pushing (right, operator) on the stack holding the left value and folding
   * the stack while it holds more than one entry: pop the operator, then the
   * right and the left operand, and push what the reduction table gives.
   * The fold runs once and leaves one value, or none for a code without a case.
   */
  method PushAndReduce(host: Host, stk0: seq<Entry>, right: Value, code: OpCode) returns (r: Result<seq<Entry>, Error>)
    requires |stk0| == 1 && stk0[0].V?
    ensures var d := Dispatch(host, code, right, stk0[0].v);
      r == if d.Err? then Err(d.error) else Ok(if d.value.Some? then [V(d.value.value)] else [])
    ensures r.Ok? ==> |r.value| == (if code.IsReduced() then 1 else 0)
  {
    DispatchArity(host, code, right, stk0[0].v);
    ghost var d := Dispatch(host, code, right, stk0[0].v);
    var stk := stk0 + [V(right), O(code)];
    while |stk| > 1
      invariant |stk| > 1 ==> stk == stk0 + [V(right), O(code)]
      invariant |stk| <= 1 ==> d.Ok? && stk == if d.value.Some? then [V(d.value.value)] else []
      decreases |stk|
    {
      var operator := stk[|stk| - 1].code;
      var v1 := stk[|stk| - 2].v;
      var v2 := stk[|stk| - 3].v;
      stk := stk[..|stk| - 3];
      var reduced := Dispatch(host, operator, v1, v2);
      match reduced {
        case Err(e) =>
          return Err(e);
        case Ok(None) =>
        case Ok(Some(x)) =>
          if operator.Chor? {
            stk := [];
          }
          stk := stk + [V(x)];
      }
    }
    r := Ok(stk);
  }

  /** What one pass of the outer loop hands back: the cursor and stack to go on with, or the run's result. */
  datatype Pass = Next(cursor: nat, stack: seq<Entry>) | Done(result: Result<Value, Error>)

  /** The pass a transition prescribes (the debugger calls aside). */
  function PassOf(t: Transition): Pass {
    match t
    case Continue(next, stk, _) => Next(next, stk)
    case Stop(result, _) => Done(result)
  }

  /** Where the run stands after one pass that does what the step from cursor `i` prescribes. */
  lemma PassFollows(nodes: seq<Node>, i: nat, stk: seq<Entry>, env: Env, hits: seq<Hit>, goal: Outcome, pass: Pass)
    requires i < |nodes| && Settled(stk) && goal == Prepend(hits, Run(nodes, i, stk, env))
    requires pass == PassOf(Step(nodes, i, stk, env))
    ensures var t := Step(nodes, i, stk, env);
      && (pass.Done? ==> goal == Outcome(pass.result, hits + t.hits))
      && (pass.Next? ==> i < pass.cursor <= |nodes| && Settled(pass.stack)
                         && goal == Prepend(hits + t.hits, Run(nodes, pass.cursor, pass.stack, env)))
  {
    var t := Step(nodes, i, stk, env);
    RunUnfold(nodes, i, stk, env);
    if pass.Next? {
      PrependAssoc(hits, t.hits, Run(nodes, t.next, t.stk, env));
    }
  }

  /**
   * A `TERNARY` node with the popped condition `cond` and the cursor at `i`:
   * true continues after the condition, false skips the "then" branch, null is
   * a null dereference and any other value a failed cast; the stack is cleared.
   */
  method BranchOnCondition(tk: Node, nodes: seq<Node>, i: nat, cond: Value) returns (pass: Pass)
    requires tk.Op? && i <= |nodes|
    ensures pass == PassOf(TernaryStep(tk, nodes, i, cond))
  {
    match cond {
      case Bool(b) =>
        var cursor := i;
        if !b {
          cursor := SkipFalseBranch(nodes, i);
        }
        pass := Next(cursor, []);
      case Null =>
        pass := Done(Err(OuterCatch(NullPointer, tk, i == |nodes|)));
      case _ =>
        pass := Done(Err(ClassCast));
    }
  }

  /**
   * Any other operator node `tk` with the left value `left` on the stack and the
   * cursor at `i`: take the next node as the right operand (a missing one is a
   * null dereference), evaluate it, and reduce.
   */
  method ReduceBinary(host: Host, tk: Node, nodes: seq<Node>, i: nat, left: Value, ghost env: Env) returns (pass: Pass)
    requires tk.Op? && i <= |nodes| && env.reduce == OperatorTable(host)
    ensures pass == PassOf(BinaryStep(tk, nodes, i, left, env))
  {
    if i == |nodes| {
      return Done(Err(OuterCatch(NullPointer, tk, true)));
    }
    var right := NodeValue(nodes[i]);
    if right.Err? {
      return Done(Err(OuterCatch(right.error, tk, i + 1 == |nodes|)));
    }
    var reduced := PushAndReduce(host, [V(left)], right.value, tk.code);
    if reduced.Err? {
      return Done(Err(reduced.error));
    }
    pass := Next(i + 1, reduced.value);
  }

  /** The operator table of `execute`: `Dispatch` over the helper capabilities `host`. */
  function OperatorTable(host: Host): Reduction {
    (code, v1, v2) => Dispatch(host, code, v1, v2)
  }

  class Runtime {
    /** The registry of breakpoints; None until the first registration and after a reset. */
    var threadBreakpoints: Option<Registry>
    /** The debugger slot; set once until reset. */
    var threadDebugger: Option<Debugger>
    /** Every `onBreak(source, line)` call made by this evaluation loop so far, in order. */
    ghost var breaks: seq<Hit>

    constructor ()
      ensures threadBreakpoints == None && threadDebugger == None && breaks == []
    {
      threadBreakpoints := None;
      threadDebugger := None;
      breaks := [];
    }

    /** What an evaluation reads from this runtime. */
    function EnvFor(host: Host, debugger: bool): Env
      reads this
    {
      Env(OperatorTable(host), debugger, threadBreakpoints, threadDebugger.Some?)
    }

    function HasBreakpoints(): bool
      reads this
    {
      Breakpoints.HasBreakpoints(threadBreakpoints)
    }

    method RegisterBreakpoint(source: string, line: int)
      modifies this`threadBreakpoints
      ensures threadBreakpoints == Some(Register(old(threadBreakpoints), source, line))
      ensures HasBreakpoints() && Registered(threadBreakpoints, source, line)
    {
      var reg: Registry;
      if threadBreakpoints.None? {
        reg := map[];
      } else {
        reg := threadBreakpoints.value;
      }
      if source !in reg {
        reg := reg[source := {}];
      }
      reg := reg[source := reg[source] + {line}];
      threadBreakpoints := Some(reg);
      RegisterAdds(old(threadBreakpoints), source, line, source, line);
    }

    method RemoveBreakpoint(source: string, line: int) returns (r: Result<(), Error>)
      modifies this`threadBreakpoints
      ensures var removed := Remove(old(threadBreakpoints), source, line);
        && (r.Err? <==> removed.Err?)
        && (r.Err? ==> r.error == NullPointer && threadBreakpoints == old(threadBreakpoints))
        && (r.Ok? ==> threadBreakpoints == removed.value)
      ensures HasBreakpoints() == old(HasBreakpoints())
    {
      if threadBreakpoints.Some? {
        var reg := threadBreakpoints.value;
        if source !in reg {
          return Err(NullPointer);
        }
        threadBreakpoints := Some(reg[source := reg[source] - {line}]);
      }
      r := Ok(());
      RemoveDrops(old(threadBreakpoints), source, line, source, line);
    }

    method ClearAllBreakpoints()
      modifies this`threadBreakpoints
      ensures threadBreakpoints == ClearAll(old(threadBreakpoints))
      ensures !HasBreakpoints()
    {
      if threadBreakpoints.Some? {
        threadBreakpoints := Some(map[]);
      }
    }

    /**
     * A debugger may be set only once; later calls change nothing until a reset.
     * `None` is Java's null, which leaves an empty slot empty.
     */
    method SetThreadDebugger(debugger: Option<Debugger>)
      modifies this`threadDebugger
      ensures threadDebugger == if old(threadDebugger).None? then debugger else old(threadDebugger)
    {
      if threadDebugger.None? {
        threadDebugger := debugger;
      }
    }

    /** Drops both the debugger and the breakpoint registry. */
    method ResetDebugger()
      modifies this`threadDebugger, this`threadBreakpoints
      ensures threadDebugger == None && threadBreakpoints == None
    {
      if threadDebugger.Some? {
        threadDebugger := None;
      }
      if threadBreakpoints.Some? {
        threadBreakpoints := None;
      }
    }

    /**
     * A line-label node: once breakpoints exist the run turns debugging on;
     * in debug mode a registered (source, line) is a break, which needs a
     * debugger to call; without one the run fails.
     */
    method CheckBreakpoint(tk: Node, ghost j: nat, ghost stk: seq<Entry>, ghost env: Env, debug: bool) returns (debugNow: bool, hit: bool, ok: bool)
      requires tk.Marker?
      requires env.breakpoints == threadBreakpoints && env.hasDebugger == threadDebugger.Some?
      requires debug || threadBreakpoints.Some? <==> env.debug || threadBreakpoints.Some?
      ensures debugNow == (debug || threadBreakpoints.Some?)
      ensures var t := MarkerStep(tk, j, stk, env);
        ok == t.Continue? && (hit <==> t.hits != [])
    {
      debugNow := debug;
      if !debugNow && threadBreakpoints.Some? {
        debugNow := true;
      }
      hit, ok := false, true;
      if debugNow {
        if threadBreakpoints.Some? && tk.source in threadBreakpoints.value
           && tk.line in threadBreakpoints.value[tk.source] {
          if threadDebugger.None? {
            return debugNow, false, false;
          }
          hit := true;
        }
      }
    }

    /**
     * One pass of the outer loop at cursor `i`: a line label is a breakpoint
     * check; any other node is pushed when the stack is empty and then, if it
     * is an operator, acted on. The pass either hands back the new cursor and
     * stack or ends the run with its result.
     */
    method Advance(host: Host, nodes: seq<Node>, i: nat, stk: seq<Entry>, ghost env: Env, debug: bool)
      returns (debugNow: bool, pass: Pass, onBreak: Option<Hit>)
      requires i < |nodes| && Settled(stk)
      requires env.reduce == OperatorTable(host) && env.breakpoints == threadBreakpoints && env.hasDebugger == threadDebugger.Some?
      requires debug || threadBreakpoints.Some? <==> env.debug || threadBreakpoints.Some?
      ensures debugNow || threadBreakpoints.Some? <==> env.debug || threadBreakpoints.Some?
      ensures var t := Step(nodes, i, stk, env);
        pass == PassOf(t) && t.hits == if onBreak.Some? then [onBreak.value] else []
    {
      var tk := nodes[i];
      debugNow, onBreak := debug, None;

      if tk.Marker? {
        var hit, ok;
        debugNow, hit, ok := CheckBreakpoint(tk, i + 1, stk, env, debug);
        if !ok {
          return debugNow, Done(Err(NoDebugger)), None;
        }
        if hit {
          onBreak := Some(Hit(tk.source, tk.line));
        }
        return debugNow, Next(i + 1, stk), onBreak;
      }

      var top: Value;
      if stk == [] {
        var self := NodeValue(tk);
        if self.Err? {
          return debugNow, Done(Err(OuterCatch(self.error, tk, i + 1 == |nodes|))), None;
        }
        top := self.value;
      } else {
        top := stk[0].v;
      }
      assert Step(nodes, i, stk, env) == NodeStep(tk, nodes, i + 1, top, env);

      if !tk.Op? {
        return debugNow, Next(i + 1, [V(top)]), None;
      }
      var operator := tk.code;
      if operator == Ternary {
        pass := BranchOnCondition(tk, nodes, i + 1, top);
      } else if operator == TernaryElse {
        pass := Done(Ok(top));
      } else if operator == EndOfStmt {
        pass := Next(i + 1, if i + 1 < |nodes| then [] else [V(top)]);
      } else {
        pass := ReduceBinary(host, tk, nodes, i + 1, top, env);
      }
    }

    /**
     * The interpreter: evaluates the compiled nodes against the helper
     * capabilities, calling the debugger at breakpoints. Its result and the
     * debugger calls it makes are those of `Evaluate`.
     */
    method Execute(debugger: bool, nodes: seq<Node>, host: Host) returns (r: Result<Value, Error>)
      modifies this`breaks
      ensures var o := Evaluate(nodes, old(EnvFor(host, debugger)));
        r == o.result && breaks == old(breaks) + o.hits
    {
      ghost var env := EnvFor(host, debugger);
      ghost var goal := Evaluate(nodes, env);
      ghost var hits: seq<Hit> := [];
      var debug := debugger;
      var stk: seq<Entry> := [];
      var i := 0;
      while i < |nodes|
        invariant 0 <= i <= |nodes|
        invariant Settled(stk)
        invariant debug || threadBreakpoints.Some? <==> debugger || threadBreakpoints.Some?
        invariant breaks == old(breaks) + hits
        invariant goal == Prepend(hits, Run(nodes, i, stk, env))
        decreases |nodes| - i
      {
        ghost var t := Step(nodes, i, stk, env);
        var pass, onBreak;
        debug, pass, onBreak := Advance(host, nodes, i, stk, env, debug);
        PassFollows(nodes, i, stk, env, hits, goal, pass);
        if pass.Done? {
          return pass.result;
        }
        if onBreak.Some? {
          breaks := breaks + [onBreak.value];
        }
        hits := hits + t.hits;
        i, stk := pass.cursor, pass.stack;
      }
      r := Ok(if stk == [] then Null else stk[|stk| - 1].v);
    }
  }
}
