/**
 * The values an expression evaluates to and the errors an evaluation ends with.
 */
module Values {
  import opened JavaInt

  /** A runtime value: Java's null, a boxed int, a boxed boolean, a string, or any other host object. */
  datatype Value =
    | Null
    | Int(i: Int32)
    | Bool(b: bool)
    | Str(s: string)
    | Obj(text: string)  // a host object not modelled further; `text` is what its toString() returns

  /** The ways an evaluation can fail, each standing for the exception the runtime lets escape. */
  datatype Error =
    | IncompleteStatement(token: string)  // CompileException "incomplete statement: <token> ..."
    | IncompatibleTypes                   // CompileException "syntax error or incomptable types"
    | SubEvalFailed                       // CompileException "failed to subEval expression"
    | NoDebugger                          // RuntimeException "no debugger registered to handle breakpoint."
    | NullPointer                         // a NullPointerException that is not reclassified
    | ClassCast                           // a ClassCastException outside the reduction step
    | Raised(name: string)                // any other exception thrown by a node's own evaluation

  /** The message text of the errors the runtime raises itself. */
  function Message(e: Error): string {
    match e
    case IncompleteStatement(t) =>
      "incomplete statement: " + t + " (possible use of reserved keyword as identifier: " + t + ")"
    case IncompatibleTypes => "syntax error or incomptable types"
    case SubEvalFailed => "failed to subEval expression"
    case NoDebugger => "no debugger registered to handle breakpoint."
    case NullPointer => "java.lang.NullPointerException"
    case ClassCast => "java.lang.ClassCastException"
    case Raised(name) => name
  }

  function DigitChar(d: nat): char
    requires d < 10
  {
    "0123456789"[d]
  }

  /** Decimal digits of a natural number, most significant first. */
  function NatToString(n: nat): (s: string)
    ensures |s| >= 1
    ensures forall k :: 0 <= k < |s| ==> '0' <= s[k] <= '9'
  {
    if n < 10 then [DigitChar(n)] else NatToString(n / 10) + [DigitChar(n % 10)]
  }

  /** Java's `String.valueOf(Object)`: "null" for null, the decimal form of an int, "true"/"false". */
  function ValueOf(v: Value): string {
    match v
    case Null => "null"
    case Int(i) => if i < 0 then "-" + NatToString(-(i as int)) else NatToString(i)
    case Bool(b) => if b then "true" else "false"
    case Str(s) => s
    case Obj(text) => text
  }

  /** A non-empty run of decimal digits. */
  predicate IsDigits(s: string) {
    |s| >= 1 && forall k :: 0 <= k < |s| ==> '0' <= s[k] <= '9'
  }

  /** The number a run of decimal digits spells, most significant first: the reference reading of a decimal text. */
  function DigitsValue(s: string): nat
    requires forall k :: 0 <= k < |s| ==> '0' <= s[k] <= '9'
  {
    if s == [] then 0 else DigitsValue(s[..|s| - 1]) * 10 + (s[|s| - 1] as int - '0' as int)
  }

  lemma DigitCharValue(d: nat)
    requires d < 10
    ensures DigitChar(d) as int - '0' as int == d
    ensures d > 0 ==> DigitChar(d) != '0'
  {
  }

  /** The decimal form spells the number back, with no leading zero. */
  lemma {:induction false} NatToStringDecimal(n: nat)
    ensures DigitsValue(NatToString(n)) == n
    ensures n > 0 ==> NatToString(n)[0] != '0'
  {
    if n < 10 {
      DigitCharValue(n);
      assert NatToString(n) == [DigitChar(n)];
      assert DigitsValue([DigitChar(n)]) == DigitsValue([]) * 10 + (DigitChar(n) as int - '0' as int);
    } else {
      var q, d := n / 10, n % 10;
      NatToStringDecimal(q);
      DigitCharValue(d);
      var p := NatToString(q);
      var s := p + [DigitChar(d)];
      assert NatToString(n) == s;
      assert s[..|s| - 1] == p;
      assert DigitsValue(s) == DigitsValue(p) * 10 + d;
      assert s[0] == p[0];
    }
  }

  /**
   * `String.valueOf`: a string is itself; null and booleans are their words;
   * an int is its decimal digits, after a '-' exactly when it is negative.
   */
  lemma ValueOfText(v: Value)
    ensures v.Str? ==> ValueOf(v) == v.s
    ensures v.Null? ==> ValueOf(v) == "null"
    ensures v.Bool? ==> ValueOf(v) == (if v.b then "true" else "false")
    ensures v.Int? && v.i >= 0 ==> IsDigits(ValueOf(v)) && DigitsValue(ValueOf(v)) == v.i
    ensures v.Int? && v.i < 0 ==>
      && |ValueOf(v)| >= 2 && ValueOf(v)[0] == '-'
      && IsDigits(ValueOf(v)[1..]) && DigitsValue(ValueOf(v)[1..]) == -(v.i as int)
  {
    if v.Int? {
      if v.i < 0 {
        NatToStringDecimal(-(v.i as int));
        assert ValueOf(v)[1..] == NatToString(-(v.i as int));
      } else {
        NatToStringDecimal(v.i as int);
      }
    }
  }

  /** Distinct ints have distinct texts: the decimal form can be read back. */
  lemma ValueOfIntInjective(a: Int32, b: Int32)
    ensures ValueOf(Int(a)) == ValueOf(Int(b)) ==> a == b
  {
    ValueOfText(Int(a));
    ValueOfText(Int(b));
    if ValueOf(Int(a)) == ValueOf(Int(b)) {
      if a < 0 && b < 0 {
        assert ValueOf(Int(a))[1..] == ValueOf(Int(b))[1..];
      }
    }
  }

  /** The incomplete-statement message starts with "incomplete statement: " followed by the token. */
  lemma IncompleteMessage(t: string)
    ensures var m := Message(IncompleteStatement(t));
      |m| >= 22 + |t| && m[..22] == "incomplete statement: " && m[22..22 + |t|] == t
  {
    var m := Message(IncompleteStatement(t));
    assert m == "incomplete statement: " + (t + (" (possible use of reserved keyword as identifier: " + t + ")"));
  }
}
