# MVEL runtime: the evaluation loop and the debugger registry

This project models `org.mvel.MVELRuntime` in Dafny. The class has two parts:

- `execute`, the interpreter for a compiled MVEL expression. It walks the
  forward-only list of compiled nodes and keeps a value/operator stack.
  A node that starts a statement is evaluated and pushed. An operator pulls the
  next node as its right operand and folds (left, operator, right) into one
  value through its reduction table. `TERNARY`, `TERNARY_ELSE` and
  `END_OF_STMT` steer the cursor and the stack. Line-label nodes call the
  debugger at registered breakpoints.
- The debug administration: one thread's breakpoint registry (a map from
  source name to a set of lines) and its set-once debugger slot.

The model is built in layers:

- **`JavaInt`**: Java's 32-bit `int` as an integer range, with explicit
  wrap-around.
  - `&`, `|` and `^` are defined bit by bit on the two's-complement encoding.
  - `<<`, `>>` and `>>>` mask the distance to five bits, as section 15.19 of
    the Java Language Specification says.
- **`Values`**: the values an expression evaluates to, and Java's
  `String.valueOf`.
  - `Error` lists the exceptions that can escape `execute`, each with its
    message.
- **`Operators`**: the reduction `switch` as the function `Dispatch`, with
  its properties.
  - Helpers that live outside the class are fields of a `Host` value and
    are not interpreted: `isEmpty`, `containsCheck`, the reflection behind
    `INSTANCEOF` and `CONVERTABLE_TO`, `soundex` and `similarity`.
- **`Breakpoints`**: the registry operations as functions on
  `Option<map<string, set<int>>>`. `None` is a registry that was never
  created or was reset.
- **`Interpreter`**: one iteration of the outer `while` loop as the function
  `Step` over a cursor into `seq<Node>` and a stack. `Run` iterates steps to
  the result and the list of `onBreak` calls.
  - The operator table is part of the evaluation environment `Env`. Every
    lemma about `Run` holds for any table. The runtime fixes it to
    `Dispatch`.
- **`Semantics`**: what the loop promises, proved about `Run`: locality,
  markers and the debugger, statement separators, the ternary operator,
  incomplete statements and the binary reduction.
- **`MVELRuntime`**: the class `Runtime`. Its fields are `threadBreakpoints`,
  `threadDebugger` and a ghost log `breaks` of the `onBreak(source, line)`
  calls this evaluation loop makes. Its methods update those fields in place.
  - `Execute` is a `while` loop over the cursor whose result and debugger
    calls are proved to be those of `Evaluate`.
  - Each pass of the loop is the method `Advance`. It calls
    `SkipFalseBranch`, the skipping loop of `TERNARY`, and
    `PushAndReduce`, the folding loop of `stk.size() > 1`. Both are proved
    against their specification functions.

Stack discipline: between two nodes the stack holds at most one entry, and
that entry is a value (`Settled`, kept by every `Step`). So the folding loop
always starts from exactly three entries. It ends with one value, or with
none for a code that has no case in the `switch`.

Four behaviours of the code are easy to misread; the model follows the code:

- `removeBreakpoint` on a registry that has no entry for the source
  dereferences the missing line set and throws a NullPointerException. It is
  not a no-op.
- Debug mode turns on when a breakpoint registry merely exists, even an
  empty one. A marker stops only at a
  registered line, which needs a registry anyway. So the `debugger` argument
  of `execute` never changes the outcome (`Semantics.DebugFlagIrrelevant`).
- `removeBreakpoint` keeps the source's entry, so `hasBreakpoints()` stays
  true after the last line of a source is removed.
- `INSTANCEOF` and `CONVERTABLE_TO` with an unknown class name throw
  `ClassNotFoundException` inside the reduction. That is reported as
  "failed to subEval expression", not as a type mismatch. So is
  `CONVERTABLE_TO` with a null left operand, whose `getClass()` the runtime
  calls itself.

## Model

| member | source | states |
|---|---|---|
| MVELRuntime.Runtime.Execute | main/java/org/mvel/MVELRuntime.java:41-224 | the value returned (or the exception raised) and the `onBreak` calls appended to the log are exactly those of `Evaluate` on the nodes, with the registry and debugger slot as they stood at the call |
| MVELRuntime.Runtime.Advance | main/java/org/mvel/MVELRuntime.java:51-125 | one pass of the outer loop hands back the cursor and stack, or the result, that `Step` prescribes, and reports the one `onBreak` call that step makes, if any; the effective debug mode it carries on is that of the registry |
| MVELRuntime.Runtime.CheckBreakpoint | main/java/org/mvel/MVELRuntime.java:63-88 | debugging turns on once a registry exists; the marker is a break exactly when the step records a hit, and it fails exactly when the step stops (a break with no debugger) |
| MVELRuntime.SkipFalseBranch | main/java/org/mvel/MVELRuntime.java:104 | the skipping loop stops just past the first `TERNARY_ELSE` from the cursor, or at the end: the position `SkipBranch` names |
| MVELRuntime.PushAndReduce | main/java/org/mvel/MVELRuntime.java:125-203 | pushing (right, operator) on the left value and folding leaves exactly the value `Dispatch` gives, nothing for a code without a case, or its error; one entry for every handled code |
| MVELRuntime.BranchOnCondition | main/java/org/mvel/MVELRuntime.java:101-107 | a `TERNARY` pass: true continues after the condition, false resumes after the skipped branch, both with a cleared stack; null and non-boolean conditions fail as `TernaryStep` says |
| MVELRuntime.ReduceBinary | main/java/org/mvel/MVELRuntime.java:125-210 | an operator pass: a missing right operand, a failing operand and a failing reduction end the run as `BinaryStep` says; otherwise the cursor moves past the operand with the reduced stack |
| MVELRuntime.PassFollows | main/java/org/mvel/MVELRuntime.java:51-211 | a pass that does what the step prescribes keeps the loop invariant: the eventual outcome is the hits so far followed by the run from the new cursor, or the pass's result |
| MVELRuntime.Runtime.constructor | main/java/org/mvel/MVELRuntime.java:28-29 | no registry, no debugger and no debugger calls yet |
| MVELRuntime.Runtime.RegisterBreakpoint | main/java/org/mvel/MVELRuntime.java:232-241 | the registry becomes `Register` of the old one; afterwards the line is a breakpoint and `hasBreakpoints()` is true |
| MVELRuntime.Runtime.RemoveBreakpoint | main/java/org/mvel/MVELRuntime.java:249-253 | fails with a NullPointerException, changing nothing, exactly when `Remove` fails (a registry without the source); otherwise the registry becomes `Remove` of the old one; `hasBreakpoints()` never changes |
| MVELRuntime.Runtime.ClearAllBreakpoints | main/java/org/mvel/MVELRuntime.java:258-262 | an existing registry becomes empty, a missing one stays missing; `hasBreakpoints()` is false afterwards |
| MVELRuntime.Runtime.SetThreadDebugger | main/java/org/mvel/MVELRuntime.java:274-281 | the debugger is stored only when the slot is empty; a second call while one is set changes nothing; passing null (`None`) leaves an empty slot empty |
| MVELRuntime.Runtime.ResetDebugger | main/java/org/mvel/MVELRuntime.java:287-294 | both the debugger slot and the registry are empty afterwards, so a following `SetThreadDebugger` stores its debugger |
| Interpreter.Run | main/java/org/mvel/MVELRuntime.java:51-213 | the outer loop from a cursor to its result and the debugger calls it makes; stated by the `Semantics` lemmas and `Interpreter.RunHitsAreBreakpoints` |
| Interpreter.Evaluate | main/java/org/mvel/MVELRuntime.java:41-224 | the whole evaluation from the first node on an empty stack; the specification `MVELRuntime.Runtime.Execute` is proved against |
| Interpreter.OuterCatch | main/java/org/mvel/MVELRuntime.java:215-222 | a NullPointerException becomes an incomplete statement when the current node is an operator and no node follows, and passes through otherwise; stated by `Semantics.IncompleteAtEnd`, `Semantics.OperandFails` and `Semantics.TernaryBadCondition` |
| Interpreter.SkipBranch | main/java/org/mvel/MVELRuntime.java:104 | the resume position after a false condition lies between the cursor and the end of the nodes |
| Interpreter.IsBreakpoint | main/java/org/mvel/MVELRuntime.java:63-75 | debug mode is the `debugger` argument or an existing registry, and the marker's (source, line) must be registered; stated by `Interpreter.RunHitsAreBreakpoints`, `Semantics.DebugFlagIrrelevant` and `MVELRuntime.Runtime.CheckBreakpoint` |
| Interpreter.NodeValue | main/java/org/mvel/MVELRuntime.java:93 | what `getReducedValueAccelerated` gives for a node, here and for the right operand at line 125, with a line label taken as an operand reading as null; stated by `Semantics.ValueNode`, `Semantics.OperandFails` and `Semantics.MarkerOperandIsNull` |
| Interpreter.Top | main/java/org/mvel/MVELRuntime.java:92-94 | the current node's value is pushed only on an empty stack, otherwise the held value is the left operand; stated by `Semantics.ValueNode` and `Semantics.BinaryReduction` |
| Interpreter.MarkerStep | main/java/org/mvel/MVELRuntime.java:52-90 | a line label consumes only itself and leaves the stack alone; its only possible hit is its own (source, line); it can only fail with "no debugger registered to handle breakpoint." |
| Interpreter.TernaryStep | main/java/org/mvel/MVELRuntime.java:101-107 | a `TERNARY` step never calls the debugger; when it goes on, the cursor lies within the nodes and the stack is cleared |
| Interpreter.BinaryStep | main/java/org/mvel/MVELRuntime.java:125-210 | an operator consumes exactly its right operand and leaves a settled stack, calling no debugger |
| Interpreter.NodeStep | main/java/org/mvel/MVELRuntime.java:92-123 | a value or operator node never moves the cursor backwards, leaves a settled stack and calls no debugger |
| Interpreter.Step | main/java/org/mvel/MVELRuntime.java:51-211 | every iteration consumes at least one node and leaves at most one value on the stack; the only debugger call is that of a marker at the cursor |
| Interpreter.RunHitsAreBreakpoints | main/java/org/mvel/MVELRuntime.java:70-83 | every `onBreak` call of a run is at a breakpoint while debugging, and calls are made only when a debugger is set |
| Semantics.RunSuffix | main/java/org/mvel/MVELRuntime.java:51 | evaluation from a cursor depends only on the nodes from the cursor on: equal remainders give equal outcomes |
| Semantics.RunFromCursor | main/java/org/mvel/MVELRuntime.java:51 | running from cursor `j` is running the remaining nodes on their own |
| Semantics.StepSuffix | main/java/org/mvel/MVELRuntime.java:51-211 | one iteration over equal remainders ends alike or goes on with equal stacks, hits and remainders |
| Semantics.MarkerTransparent | main/java/org/mvel/MVELRuntime.java:52-90 | a marker is passed over with the stack unchanged; it calls the debugger once exactly at a breakpoint when a debugger is set, fails at a breakpoint without one, and is skipped silently when its source has no entry |
| Semantics.BreakpointExample | main/java/org/mvel/MVELRuntime.java:70-83 | a breakpoint marker before a value calls the debugger once with that position, then the value is the result |
| Semantics.DebugFlagIrrelevant | main/java/org/mvel/MVELRuntime.java:63-75 | the `debugger` argument never changes the outcome of a run |
| Semantics.PlainProgramHits | main/java/org/mvel/MVELRuntime.java:52-90 | over markers and values, with a debugger the run succeeds and calls `onBreak` exactly once per marker at a breakpoint, in order; without one it fails exactly when some marker is at a breakpoint |
| Semantics.ValueNode | main/java/org/mvel/MVELRuntime.java:92-98 | a value node is evaluated and pushed only on an empty stack (its failure ends the run); on a non-empty stack it is passed over unevaluated |
| Semantics.EndOfNodes | main/java/org/mvel/MVELRuntime.java:213 | at the end of the nodes the result is the stack top, null on an empty stack |
| Semantics.EndOfStatement | main/java/org/mvel/MVELRuntime.java:112-122 | `END_OF_STMT` clears the stack if and only if more nodes follow; at the end the value stays and is the result |
| Semantics.StatementsDiscardEarlierValue | main/java/org/mvel/MVELRuntime.java:112-122 | `a; s2` evaluates to what `s2` alone evaluates to |
| Semantics.TrailingSeparatorKeepsValue | main/java/org/mvel/MVELRuntime.java:112-122 | `a;` with nothing after it evaluates to `a` |
| Semantics.TernaryChoice | main/java/org/mvel/MVELRuntime.java:101-107 | a true condition goes on into the "then" branch and a false one resumes after the skipped branch, both with an empty stack |
| Semantics.TernaryBadCondition | main/java/org/mvel/MVELRuntime.java:102 | a null condition fails with a NullPointerException, read as an incomplete statement when nothing follows; any other non-boolean fails with a ClassCastException |
| Semantics.ElseEndsRun | main/java/org/mvel/MVELRuntime.java:109-110 | reaching `TERNARY_ELSE` ends the run with the value on the stack |
| Semantics.SkipPastElse | main/java/org/mvel/MVELRuntime.java:104 | skipping resumes just past the first `TERNARY_ELSE` |
| Semantics.SkipToEnd | main/java/org/mvel/MVELRuntime.java:104 | without a `TERNARY_ELSE`, skipping consumes every remaining node |
| Semantics.FalseResumesAfterElse | main/java/org/mvel/MVELRuntime.java:101-107 | on a false condition, evaluation resumes with an empty stack just past the branch's `TERNARY_ELSE` |
| Semantics.UntakenBranchIgnored | main/java/org/mvel/MVELRuntime.java:101-107 | on a false condition the result is that of the nodes after the `TERNARY_ELSE` alone, whatever the skipped branch holds |
| Semantics.TernaryTrueReturnsAtElse | main/java/org/mvel/MVELRuntime.java:101-110 | `true ? a : ...` returns `a` at `TERNARY_ELSE`, whatever statements follow |
| Semantics.TernaryFalseTakesElse | main/java/org/mvel/MVELRuntime.java:101-110 | `false ? a : b` evaluates to `b` |
| Semantics.IncompleteAtEnd | main/java/org/mvel/MVELRuntime.java:215-219 | an operator with no node after it fails as an incomplete statement naming the operator's token |
| Semantics.IncompleteExpression | main/java/org/mvel/MVELRuntime.java:215-219 | `left op` with nothing after it fails as an incomplete statement naming `op` |
| Semantics.BinaryReduction | main/java/org/mvel/MVELRuntime.java:125-203 | `left op right`: the run goes on past the operand with the reduced value (an empty stack for a code without a case), or ends with the reduction's error |
| Semantics.MarkerOperandIsNull | main/java/org/mvel/MVELRuntime.java:125 | a line label pulled as the right operand is reduced as a null operand |
| Semantics.OperandFails | main/java/org/mvel/MVELRuntime.java:125 | a failing right operand ends the run with its error; a null fault of the last node reads as an incomplete statement |
| Operators.Dispatch | main/java/org/mvel/MVELRuntime.java:133-202 | one pass of the reduction `switch`: the value pushed, none for a code without a case, or the exception raised; stated case by case by the lemmas below |
| Operators.Coalesce | main/java/org/mvel/MVELRuntime.java:134-139 | the `CHOR` choice; stated by `Operators.CoalesceIsFirstNonEmpty` |
| Operators.Unbox | main/java/org/mvel/MVELRuntime.java:161-189 | the `(Integer)` cast and unboxing of one operand; its failures are stated by `Operators.IntOperatorOutcome` |
| Operators.Magnitude | main/java/org/mvel/MVELRuntime.java:178-179 | the negation of a negative `BW_USHIFT_LEFT` operand; stated by `Operators.UnsignedShiftLeftQuirk` |
| Operators.IntOp | main/java/org/mvel/MVELRuntime.java:161-189 | the int result of each integer operator; stated by `Operators.IntOperatorOutcome` and the `JavaInt` lemmas |
| Operators.DispatchArity | main/java/org/mvel/MVELRuntime.java:128-203 | a successful reduction pushes one value exactly for the codes with a case; a code without a case pushes nothing and never fails; only integer and test operators can fail |
| Operators.CoalesceIsFirstNonEmpty | main/java/org/mvel/MVELRuntime.java:134-139 | `CHOR` picks the first non-empty value of [left, right], or null |
| Operators.CoalesceReduction | main/java/org/mvel/MVELRuntime.java:134-139 | a non-empty left operand always wins; otherwise a non-empty right one; two empty operands give null |
| Operators.IntOperatorOutcome | main/java/org/mvel/MVELRuntime.java:161-209 | two ints give the Java result of `left op right`; a null operand fails as a sub-evaluation failure and a non-int one as a type mismatch, the left operand checked first |
| Operators.UnsignedShiftLeftQuirk | main/java/org/mvel/MVELRuntime.java:177-181 | `BW_USHIFT_LEFT` agrees with `<<` on non-negative operands and ignores the sign: -1 shifted by 1 gives 2 where `<<` gives -2; MIN_VALUE, whose negation overflows to itself, shifts as under `<<` |
| Operators.StringAppend | main/java/org/mvel/MVELRuntime.java:191-193 | `STR_APPEND` is the text of the left operand followed by that of the right one ("foo" and "bar" give "foobar") |
| Operators.TestResult | main/java/org/mvel/MVELRuntime.java:142-159 | a yes/no test pushes the helper's answer as a boolean, and one that throws fails, through the catch at line 208, as "failed to subEval expression"; stated by `Operators.TestOutcome` and `Operators.ConvertibleNullFails` |
| Operators.TestOutcome | main/java/org/mvel/MVELRuntime.java:142-159 | `INSTANCEOF` and `CONTAINS` push the helper's answer, and a helper that throws is a failed sub-evaluation (the catch at line 208) |
| Operators.ConvertibleNullFails | main/java/org/mvel/MVELRuntime.java:150-155 | `CONVERTABLE_TO` with a null left operand always fails as a sub-evaluation failure, before the conversion helper is asked; otherwise the helper's answer is pushed |
| Operators.SoundexSymmetric | main/java/org/mvel/MVELRuntime.java:195-197 | `SOUNDEX` is symmetric in its operands and true on operands with equal text |
| Values.NatToString | main/java/org/mvel/MVELRuntime.java:192 | the decimal form of a number is a non-empty string of digits |
| Values.NatToStringDecimal | main/java/org/mvel/MVELRuntime.java:192 | the digits spell the number back (as read by the independent `DigitsValue`), with no leading zero |
| Values.ValueOf | main/java/org/mvel/MVELRuntime.java:192 | Java's `String.valueOf` of a value; its text is stated by `Values.ValueOfText` and `Values.ValueOfIntInjective` |
| Values.ValueOfIntInjective | main/java/org/mvel/MVELRuntime.java:192 | distinct ints have distinct texts: the decimal form of an int can be read back |
| Values.Message | main/java/org/mvel/MVELRuntime.java:206-218 | the message of each exception the runtime raises itself, word for word (with the 'no debugger' message of line 78); `Values.IncompleteMessage` states its incomplete-statement form |
| Values.IncompleteMessage | main/java/org/mvel/MVELRuntime.java:217-218 | the incomplete-statement message starts with "incomplete statement: " followed by the operator's token |
| Values.ValueOfText | main/java/org/mvel/MVELRuntime.java:192 | `valueOf` of a string is the string itself; null, true and false are the words "null", "true" and "false"; a non-negative int is the decimal digits that spell it, a negative one '-' followed by the digits of its magnitude |
| JavaInt.Wrap | main/java/org/mvel/MVELRuntime.java:161-189 | Java's wrap-around: the result is congruent to the input modulo 2^32 and equal to it inside the int range |
| JavaInt.Unsigned | main/java/org/mvel/MVELRuntime.java:161-189 | the two's-complement encoding is below 2^32, congruent modulo 2^32, and the value itself for non-negative ints |
| JavaInt.WrapUnsigned | main/java/org/mvel/MVELRuntime.java:161-189 | decoding the encoding of an int gives the int back |
| JavaInt.UnsignedWrap | main/java/org/mvel/MVELRuntime.java:161-189 | encoding the decoded 32-bit pattern gives the pattern back |
| JavaInt.And | main/java/org/mvel/MVELRuntime.java:161-163 | Java `&` on ints; its bits are stated by `JavaInt.BitwiseBits` |
| JavaInt.Or | main/java/org/mvel/MVELRuntime.java:165-167 | Java's bitwise or on ints; its bits are stated by `JavaInt.BitwiseBits` |
| JavaInt.Xor | main/java/org/mvel/MVELRuntime.java:169-171 | Java `^` on ints; its bits are stated by `JavaInt.BitwiseBits`, its inverse by `JavaInt.XorInverse` |
| JavaInt.Shl | main/java/org/mvel/MVELRuntime.java:173-175 | Java `<<`; stated by `JavaInt.ShlMasksDistance` |
| JavaInt.Shr | main/java/org/mvel/MVELRuntime.java:183-185 | Java `>>`; stated by `JavaInt.ShrIsFloorDivision` |
| JavaInt.UShr | main/java/org/mvel/MVELRuntime.java:187-189 | Java `>>>`; stated by `JavaInt.UShrProperties` |
| JavaInt.Combine | main/java/org/mvel/MVELRuntime.java:161-171 | a bitwise combination of n-bit patterns fits in n bits |
| JavaInt.CombineBit | main/java/org/mvel/MVELRuntime.java:161-171 | each bit of a bitwise combination is the boolean operator applied to the operands' bits |
| JavaInt.CombineCommutes | main/java/org/mvel/MVELRuntime.java:161-171 | a bitwise combination does not depend on operand order |
| JavaInt.XorTwice | main/java/org/mvel/MVELRuntime.java:169-171 | xor-ing twice with the same pattern gives the original back |
| JavaInt.CombineIdentity | main/java/org/mvel/MVELRuntime.java:161-167 | and with all ones and or with zero leave a pattern unchanged |
| JavaInt.BitwiseBits | main/java/org/mvel/MVELRuntime.java:161-171 | each of the 32 bits of a bitwise and, or, xor is the boolean operator on the operands' bits |
| JavaInt.BitwiseCommutes | main/java/org/mvel/MVELRuntime.java:161-171 | bitwise and, or and xor are commutative |
| JavaInt.XorInverse | main/java/org/mvel/MVELRuntime.java:169-171 | `(a ^ b) ^ b == a` |
| JavaInt.BitwiseIdentities | main/java/org/mvel/MVELRuntime.java:161-167 | and with -1 and or with 0 leave an int unchanged |
| JavaInt.ShrIsFloorDivision | main/java/org/mvel/MVELRuntime.java:183-185 | `a >> s` is the floor of a / 2^(s mod 32) and keeps the sign |
| JavaInt.UShrProperties | main/java/org/mvel/MVELRuntime.java:187-189 | `>>>` agrees with `>>` on non-negative ints and gives a non-negative result for a distance not a multiple of 32; for a negative int and a distance whose low five bits k are not all zero it is `(a >> s) + 2^(32 - k)`, the identity of section 15.19 of the Java Language Specification |
| JavaInt.UShrNegative | main/java/org/mvel/MVELRuntime.java:187-189 | for a negative int, `a >>> s` is `(a >> s) + 2^(32 - k)`, where k is the distance's low five bits and not zero |
| JavaInt.ShlMasksDistance | main/java/org/mvel/MVELRuntime.java:173-175 | `<<` uses only the low five bits of the distance; a distance that is a multiple of 32 shifts nothing |
| Breakpoints.Register | main/java/org/mvel/MVELRuntime.java:232-241 | the registry after `registerBreakpoint`; stated by `Breakpoints.RegisterAdds` and `Breakpoints.RegisterIdempotent` |
| Breakpoints.Remove | main/java/org/mvel/MVELRuntime.java:249-253 | the registry after `removeBreakpoint`, or its NullPointerException; stated by `Breakpoints.RemoveDrops` |
| Breakpoints.ClearAll | main/java/org/mvel/MVELRuntime.java:258-262 | the registry after `clearAllBreakpoints`; stated by `Breakpoints.ClearAllEmpties` |
| Breakpoints.Registered | main/java/org/mvel/MVELRuntime.java:74-75 | the registry exists, has the source and its line set holds the line; stated by `Breakpoints.RegisterAdds`, `Breakpoints.RemoveDrops` and `Breakpoints.ClearAllEmpties` |
| Breakpoints.HasBreakpoints | main/java/org/mvel/MVELRuntime.java:264-266 | the registry exists and has at least one source entry, possibly with no lines |
| MVELRuntime.Runtime.HasBreakpoints | main/java/org/mvel/MVELRuntime.java:264-266 | `hasBreakpoints()` of this runtime: the registry query on its field |
| Breakpoints.RegisterAdds | main/java/org/mvel/MVELRuntime.java:232-241 | registering adds exactly that one breakpoint and at most that one source key, and makes `hasBreakpoints()` true |
| Breakpoints.RegisterIdempotent | main/java/org/mvel/MVELRuntime.java:232-241 | registering the same line twice is registering it once |
| Breakpoints.RemoveDrops | main/java/org/mvel/MVELRuntime.java:249-253 | removing fails exactly for a registry without the source; otherwise it drops exactly that breakpoint, keeps every key and leaves `hasBreakpoints()` unchanged |
| Breakpoints.RegisterThenRemove | main/java/org/mvel/MVELRuntime.java:232-253 | removing a just-registered line succeeds and leaves it no breakpoint, but `hasBreakpoints()` stays true |
| Breakpoints.ClearAllEmpties | main/java/org/mvel/MVELRuntime.java:258-262 | after clearing no line is a breakpoint and `hasBreakpoints()` is false; clearing neither creates nor drops the registry |

## Left out

- `ThreadLocal` partitioning: the two static thread-locals become the fields of one `Runtime` object, holding a single thread's state.
- Node evaluation (`getReducedValueAccelerated` with `ctx` and the variable resolver): every node carries what evaluating it gives, a value or an error. The classes `ASTNode`, `ASTLinkedList` and `LineLabel` are not part of this model. A line label taken as an operand is taken to evaluate to null.
- `ExecutionStack` is not part of this model: the stack is a sequence, and `peek` on an empty stack is taken to give null.
- The debugger itself and the `Frame` it receives: `onBreak` is recorded as a (source, line) entry in the ghost log `breaks`. What the debugger does is not modelled, and neither are the variable resolver and parser context passed to it.
- `isEmpty`, `containsCheck`, `soundex`, `similarity`, `DataConversion.canConvert` and the reflection behind `INSTANCEOF` (`Class.forName`, `isInstance`) belong to other classes. They are uninterpreted capabilities of a `Host` value. A yes/no test (`instanceOf`, `canConvert`, `containsCheck`) that throws answers `None`, which is a failed sub-evaluation. `isEmpty`, `soundex`, `similarity` and the `toString()` of a host object are taken never to throw.
- Operators.DispatchArity: its third clause (only integer and test operators can fail) holds because `isEmpty`, `soundex`, `similarity` and `toString()` are taken never to throw.
- Operators.SoundexSymmetric: only states what follows from comparing two phonetic codes, because the soundex algorithm is not part of this model.
- `SIMILARITY`: the floating-point score is an opaque host value; nothing is stated about it.
- The `CompileException` cause chain and the messages of exceptions raised by a node's own evaluation: each failure is an `Error` value naming the exception class that escapes.
- MVELRuntime.Runtime.Execute: evaluates against the registry and debugger slot as they are at the call. A debugger's `onBreak` is user code that could register or clear breakpoints before the next marker; that effect is not modelled.
- MVELRuntime.Runtime.Execute: `onBreak` is taken to return normally. Its own NullPointerException, which the catch at the marker swallows, and its other exceptions are not modelled.
- Nested evaluation loops: a node's value is given, so the `onBreak` calls that blocks and substatements make in their own runtime loop are not in `breaks`, which logs only the calls of this loop.
- MVELRuntime.Runtime.Execute: the body of the outer loop is split into the helper methods `Advance`, `CheckBreakpoint`, `BranchOnCondition` and `ReduceBinary`, each proved against the matching step function. The loop, the skipping loop and the folding loop keep their shape.
