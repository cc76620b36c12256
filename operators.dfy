/**
 * The reduction table of the runtime: what one (left, operator, right) triple
 * popped off the stack reduces to. `v1` is the right operand (popped second),
 * `v2` the left operand (popped third).
 */
module Operators {
  import opened Wrappers
  import opened JavaInt
  import opened Values

  /** Operator codes; `Other` is any code the reduction table has no case for. */
  datatype OpCode =
    | Ternary | TernaryElse | EndOfStmt
    | Chor | InstanceOf | ConvertableTo | Contains
    | BwAnd | BwOr | BwXor | BwShiftLeft | BwUShiftLeft | BwShiftRight | BwUShiftRight
    | StrAppend | Soundex | Similarity
    | Other(code: int)
  {
    /** Codes that combine two Java ints. */
    predicate IsIntOp() {
      BwAnd? || BwOr? || BwXor? || BwShiftLeft? || BwUShiftLeft? || BwShiftRight? || BwUShiftRight?
    }

    /** Codes that ask a host capability a yes/no question. */
    predicate IsTest() {
      InstanceOf? || ConvertableTo? || Contains?
    }

    /** Codes the reduction table has a case for. */
    predicate IsReduced() {
      Chor? || IsTest() || IsIntOp() || StrAppend? || Soundex? || Similarity?
    }
  }

  /**
   * Helper capabilities that live outside the runtime. A test answers None when
   * it throws (an unknown class name, a failed conversion check); the other
   * helpers are taken never to throw.
   */
  datatype Host = Host(
    isEmpty: Value -> bool,                  // PropertyTools.isEmpty
    instanceOf: (Value, Value) -> Option<bool>,  // (type operand, value): isInstance, after forName when needed
    canConvert: (Value, Value) -> Option<bool>,  // (type operand, value): DataConversion.canConvert
    containsCheck: (Value, Value) -> Option<bool>,  // (container, candidate): ParseTools.containsCheck
    soundex: string -> string,               // Soundex.soundex
    similarity: (string, string) -> Value)   // PropertyTools.similarity; the score is not modelled

  /** `CHOR`: the left operand if it is non-empty, else the right one if it is non-empty, else null. */
  function Coalesce(isEmpty: Value -> bool, left: Value, right: Value): Value {
    if !isEmpty(left) || !isEmpty(right) then
      (if !isEmpty(left) then left else right)
    else Null
  }

  /** The first non-empty value of a list, or null: the reference meaning of coalescing. */
  function FirstNonEmpty(isEmpty: Value -> bool, vs: seq<Value>): Value {
    if vs == [] then Null
    else if !isEmpty(vs[0]) then vs[0]
    else FirstNonEmpty(isEmpty, vs[1..])
  }

  /** The operand of `BW_USHIFT_LEFT` after a negative one is negated (with Java wrap-around). */
  function Magnitude(a: Int32): Int32 {
    if a < 0 then Wrap(-(a as int)) else a
  }

  /** The int result of an integer operator on already unboxed operands. */
  function IntOp(code: OpCode, left: Int32, right: Int32): Int32
    requires code.IsIntOp()
  {
    match code
    case BwAnd => And(left, right)
    case BwOr => Or(left, right)
    case BwXor => Xor(left, right)
    case BwShiftLeft => Shl(left, right)
    case BwUShiftLeft => Shl(Magnitude(left), right)
    case BwShiftRight => Shr(left, right)
    case BwUShiftRight => UShr(left, right)
  }

  /**
   * Casting and unboxing one operand of `(Integer) v2 op (Integer) v1`: a null
   * operand fails on unboxing (a NullPointerException, reported as a failed
   * sub-evaluation), any non-int one on the cast (a ClassCastException).
   */
  function Unbox(v: Value): Result<Int32, Error> {
    match v
    case Int(i) => Ok(i)
    case Null => Err(SubEvalFailed)
    case _ => Err(IncompatibleTypes)
  }

  function TestResult(answer: Option<bool>): Result<Option<Value>, Error> {
    match answer
    case Some(b) => Ok(Some(Bool(b)))
    case None => Err(SubEvalFailed)
  }

  /**
   * One pass of the reduction switch: Ok(Some(x)) when x is pushed, Ok(None)
   * when the code has no case (nothing is pushed), Err for the exception the
   * case raises. The left operand is cast and unboxed before the right one.
   */
  function Dispatch(host: Host, code: OpCode, v1: Value, v2: Value): Result<Option<Value>, Error> {
    if code.IsIntOp() then
      match Unbox(v2)
      case Err(e) => Err(e)
      case Ok(left) =>
        match Unbox(v1)
        case Err(e) => Err(e)
        case Ok(right) => Ok(Some(Int(IntOp(code, left, right))))
    else
      match code
      case Chor => Ok(Some(Coalesce(host.isEmpty, v2, v1)))
      case InstanceOf => TestResult(host.instanceOf(v1, v2))
      case ConvertableTo =>
        // `v2.getClass()` is evaluated first: a null left operand fails in the runtime itself
        if v2.Null? then Err(SubEvalFailed) else TestResult(host.canConvert(v1, v2))
      case Contains => TestResult(host.containsCheck(v2, v1))
      case StrAppend => Ok(Some(Str(ValueOf(v2) + ValueOf(v1))))
      case Soundex => Ok(Some(Bool(host.soundex(ValueOf(v1)) == host.soundex(ValueOf(v2)))))
      case Similarity => Ok(Some(host.similarity(ValueOf(v1), ValueOf(v2))))
      case _ => Ok(None)
  }

  // ---------------------------------------------------------------------------
  // Properties of the reduction table

  /** Every handled code pushes exactly one value; a code without a case pushes none and never fails. */
  lemma DispatchArity(host: Host, code: OpCode, v1: Value, v2: Value)
    ensures Dispatch(host, code, v1, v2).Ok? ==> (Dispatch(host, code, v1, v2).value.Some? <==> code.IsReduced())
    ensures !code.IsReduced() ==> Dispatch(host, code, v1, v2) == Ok(None)
    ensures Dispatch(host, code, v1, v2).Err? ==> code.IsIntOp() || code.IsTest()
  {
  }

  /** Coalescing two values is taking the first non-empty of [left, right]. */
  lemma CoalesceIsFirstNonEmpty(isEmpty: Value -> bool, left: Value, right: Value)
    ensures Coalesce(isEmpty, left, right) == FirstNonEmpty(isEmpty, [left, right])
  {
    var vs := [left, right];
    assert vs[1..] == [right] && vs[1..][1..] == [];
    if isEmpty(left) {
      assert FirstNonEmpty(isEmpty, vs) == FirstNonEmpty(isEmpty, [right]);
      assert FirstNonEmpty(isEmpty, [right]) == if isEmpty(right) then FirstNonEmpty(isEmpty, []) else right;
    }
  }

  /** `CHOR` on the stack: a non-empty left operand always wins; two empty operands give null. */
  lemma CoalesceReduction(host: Host, v1: Value, v2: Value)
    ensures !host.isEmpty(v2) ==> Dispatch(host, Chor, v1, v2) == Ok(Some(v2))
    ensures host.isEmpty(v2) && !host.isEmpty(v1) ==> Dispatch(host, Chor, v1, v2) == Ok(Some(v1))
    ensures host.isEmpty(v2) && host.isEmpty(v1) ==> Dispatch(host, Chor, v1, v2) == Ok(Some(Null))
  {
  }

  /** Integer operators: both operands ints give `left op right`; otherwise the left operand fails first. */
  lemma IntOperatorOutcome(host: Host, code: OpCode, v1: Value, v2: Value)
    requires code.IsIntOp()
    ensures v2.Int? && v1.Int? ==> Dispatch(host, code, v1, v2) == Ok(Some(Int(IntOp(code, v2.i, v1.i))))
    ensures v2.Null? ==> Dispatch(host, code, v1, v2) == Err(SubEvalFailed)
    ensures !v2.Int? && !v2.Null? ==> Dispatch(host, code, v1, v2) == Err(IncompatibleTypes)
    ensures v2.Int? && v1.Null? ==> Dispatch(host, code, v1, v2) == Err(SubEvalFailed)
    ensures v2.Int? && !v1.Int? && !v1.Null? ==> Dispatch(host, code, v1, v2) == Err(IncompatibleTypes)
  {
  }

  /**
   * `BW_USHIFT_LEFT` shifts the magnitude: it agrees with `<<` on non-negative numbers and
   * ignores the sign, except that negating MIN_VALUE overflows back to MIN_VALUE.
   */
  lemma UnsignedShiftLeftQuirk(a: Int32, s: Int32)
    ensures a >= 0 ==> IntOp(BwUShiftLeft, a, s) == IntOp(BwShiftLeft, a, s)
    ensures IntOp(BwUShiftLeft, a, s) == IntOp(BwUShiftLeft, Wrap(-(a as int)), s)
    ensures IntOp(BwUShiftLeft, -1, 1) == 2 && IntOp(BwShiftLeft, -1, 1) == -2
    ensures IntOp(BwUShiftLeft, MIN_VALUE, s) == IntOp(BwShiftLeft, MIN_VALUE, s)
  {
  }

  /** The yes/no tests push the helper's answer as a boolean; a helper that throws is a failed sub-evaluation. */
  lemma TestOutcome(host: Host, v1: Value, v2: Value)
    ensures host.instanceOf(v1, v2).Some? ==> Dispatch(host, InstanceOf, v1, v2) == Ok(Some(Bool(host.instanceOf(v1, v2).value)))
    ensures host.instanceOf(v1, v2).None? ==> Dispatch(host, InstanceOf, v1, v2) == Err(SubEvalFailed)
    ensures host.containsCheck(v2, v1).Some? ==> Dispatch(host, Contains, v1, v2) == Ok(Some(Bool(host.containsCheck(v2, v1).value)))
    ensures host.containsCheck(v2, v1).None? ==> Dispatch(host, Contains, v1, v2) == Err(SubEvalFailed)
  {
  }

  /** `CONVERTABLE_TO` dereferences the left operand before asking the helper: a null one always fails. */
  lemma ConvertibleNullFails(host: Host, v1: Value, v2: Value)
    ensures v2.Null? ==> Dispatch(host, ConvertableTo, v1, v2) == Err(SubEvalFailed)
    ensures !v2.Null? ==> Dispatch(host, ConvertableTo, v1, v2) == TestResult(host.canConvert(v1, v2))
  {
  }

  /** `STR_APPEND`: the textual form of the left operand followed by that of the right one. */
  lemma StringAppend(host: Host, v1: Value, v2: Value)
    ensures Dispatch(host, StrAppend, v1, v2) == Ok(Some(Str(ValueOf(v2) + ValueOf(v1))))
    ensures v1.Str? && v2.Str? ==> Dispatch(host, StrAppend, v1, v2) == Ok(Some(Str(v2.s + v1.s)))
    ensures Dispatch(host, StrAppend, Str("bar"), Str("foo")) == Ok(Some(Str("foobar")))
  {
    assert "foo" + "bar" == "foobar";
  }

  /** `SOUNDEX`: equality of the two phonetic codes, so symmetric in its operands and true on equal texts. */
  lemma SoundexSymmetric(host: Host, v1: Value, v2: Value)
    ensures Dispatch(host, Soundex, v1, v2) == Dispatch(host, Soundex, v2, v1)
    ensures ValueOf(v1) == ValueOf(v2) ==> Dispatch(host, Soundex, v1, v2) == Ok(Some(Bool(true)))
  {
  }
}
