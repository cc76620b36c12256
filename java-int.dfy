/**
 * Java's 32-bit `int` arithmetic, as used by the bitwise and shift operators of
 * the runtime: two's-complement wrap-around, bitwise operators on the 32 bits and
 * shift distances masked to their low five bits (section 15.19 of the Java
 * Language Specification defines `<<`, `>>` and `>>>` in these arithmetic terms).
 */
module JavaInt {

  const TWO_31: int := 0x8000_0000
  const TWO_32: int := 0x1_0000_0000
  const MIN_VALUE: int := -0x8000_0000
  const MAX_VALUE: int := 0x7FFF_FFFF

  type Int32 = x: int | -0x8000_0000 <= x < 0x8000_0000

  /** The Java `int` a mathematical integer wraps to: the one congruent to it modulo 2^32. */
  function Wrap(x: int): (r: Int32)
    ensures (x - r) % TWO_32 == 0
    ensures MIN_VALUE <= x <= MAX_VALUE ==> r == x
  {
    var m := x % TWO_32;
    if m >= TWO_31 then m - TWO_32 else m
  }

  /** The 32 bits of a Java `int` read as an unsigned number. */
  function Unsigned(x: Int32): (u: nat)
    ensures u < TWO_32
    ensures (u - x) % TWO_32 == 0
    ensures x >= 0 ==> u == x
  {
    if x < 0 then x + TWO_32 else x
  }

  lemma WrapUnsigned(x: Int32)
    ensures Wrap(Unsigned(x)) == x
  {
  }

  lemma UnsignedWrap(u: nat)
    requires u < TWO_32
    ensures Unsigned(Wrap(u)) == u
  {
  }

  function Pow2(k: nat): (p: nat)
    ensures p >= 1
  {
    if k == 0 then 1 else 2 * Pow2(k - 1)
  }

  lemma {:induction false} Pow2Add(a: nat, b: nat)
    ensures Pow2(a + b) == Pow2(a) * Pow2(b)
  {
    if a > 0 {
      Pow2Add(a - 1, b);
    }
  }

  lemma Pow2Is32Bits()
    ensures Pow2(32) == TWO_32
  {
    Pow2Add(2, 2);
    Pow2Add(4, 4);
    Pow2Add(8, 8);
    Pow2Add(16, 16);
  }

  /** Bit k (counted from the least significant bit) of a natural number. */
  function Bit(u: nat, k: nat): bool {
    if k == 0 then u % 2 == 1 else Bit(u / 2, k - 1)
  }

  datatype BitOp = AndOp | OrOp | XorOp

  function Apply(op: BitOp, x: bool, y: bool): bool {
    match op
    case AndOp => x && y
    case OrOp => x || y
    case XorOp => x != y
  }

  /** The n-bit number whose every bit is `op` of the corresponding bits of u and v. */
  function Combine(op: BitOp, u: nat, v: nat, n: nat): (r: nat)
    ensures r < Pow2(n)
  {
    if n == 0 then 0
    else (if Apply(op, u % 2 == 1, v % 2 == 1) then 1 else 0) + 2 * Combine(op, u / 2, v / 2, n - 1)
  }

  lemma {:induction false} CombineBit(op: BitOp, u: nat, v: nat, n: nat, k: nat)
    requires k < n
    ensures Bit(Combine(op, u, v, n), k) == Apply(op, Bit(u, k), Bit(v, k))
  {
    var r := Combine(op, u, v, n);
    var rest := Combine(op, u / 2, v / 2, n - 1);
    assert r / 2 == rest && r % 2 == (if Apply(op, u % 2 == 1, v % 2 == 1) then 1 else 0);
    if k > 0 {
      CombineBit(op, u / 2, v / 2, n - 1, k - 1);
    }
  }

  lemma {:induction false} CombineCommutes(op: BitOp, u: nat, v: nat, n: nat)
    ensures Combine(op, u, v, n) == Combine(op, v, u, n)
  {
    if n > 0 {
      CombineCommutes(op, u / 2, v / 2, n - 1);
    }
  }

  /** Xor-ing twice with the same mask gives back the first operand. */
  lemma {:induction false} XorTwice(u: nat, v: nat, n: nat)
    requires u < Pow2(n)
    ensures Combine(XorOp, Combine(XorOp, u, v, n), v, n) == u
  {
    if n > 0 {
      var w := Combine(XorOp, u, v, n);
      var rest := Combine(XorOp, u / 2, v / 2, n - 1);
      assert w / 2 == rest && w % 2 == (if (u % 2 == 1) != (v % 2 == 1) then 1 else 0);
      XorTwice(u / 2, v / 2, n - 1);
    }
  }

  /** And-ing with all ones, or or-ing with zero, leaves the first operand as it is. */
  lemma {:induction false} CombineIdentity(u: nat, n: nat)
    requires u < Pow2(n)
    ensures Combine(AndOp, u, Pow2(n) - 1, n) == u
    ensures Combine(OrOp, u, 0, n) == u
  {
    if n > 0 {
      assert (Pow2(n) - 1) / 2 == Pow2(n - 1) - 1 && (Pow2(n) - 1) % 2 == 1;
      CombineIdentity(u / 2, n - 1);
    }
  }

  function BitwiseOp(op: BitOp, a: Int32, b: Int32): Int32 {
    Wrap(Combine(op, Unsigned(a), Unsigned(b), 32))
  }

  /** Java `a & b`, `a | b` and `a ^ b` on `int`. */
  function And(a: Int32, b: Int32): Int32 { BitwiseOp(AndOp, a, b) }
  function Or(a: Int32, b: Int32): Int32 { BitwiseOp(OrOp, a, b) }
  function Xor(a: Int32, b: Int32): Int32 { BitwiseOp(XorOp, a, b) }

  /** Each of the 32 bits of a bitwise result is the operator applied to the operands' bits. */
  lemma BitwiseBits(op: BitOp, a: Int32, b: Int32, k: nat)
    requires k < 32
    ensures Bit(Unsigned(BitwiseOp(op, a, b)), k) == Apply(op, Bit(Unsigned(a), k), Bit(Unsigned(b), k))
  {
    Pow2Is32Bits();
    UnsignedWrap(Combine(op, Unsigned(a), Unsigned(b), 32));
    CombineBit(op, Unsigned(a), Unsigned(b), 32, k);
  }

  lemma BitwiseCommutes(op: BitOp, a: Int32, b: Int32)
    ensures BitwiseOp(op, a, b) == BitwiseOp(op, b, a)
  {
    CombineCommutes(op, Unsigned(a), Unsigned(b), 32);
  }

  lemma XorInverse(a: Int32, b: Int32)
    ensures Xor(Xor(a, b), b) == a
  {
    Pow2Is32Bits();
    var w := Combine(XorOp, Unsigned(a), Unsigned(b), 32);
    UnsignedWrap(w);
    XorTwice(Unsigned(a), Unsigned(b), 32);
  }

  lemma BitwiseIdentities(a: Int32)
    ensures And(a, -1) == a
    ensures Or(a, 0) == a
  {
    Pow2Is32Bits();
    CombineIdentity(Unsigned(a), 32);
  }

  lemma {:induction false} MulSign(x: int, p: nat)
    requires p >= 1
    ensures x >= 0 ==> x <= x * p
    ensures x <= 0 ==> x * p <= x
  {
    if p > 1 {
      MulSign(x, p - 1);
      assert x * p == x * (p - 1) + x;
    }
  }

  /** Floor division by a positive number lies between zero and the dividend. */
  lemma DivBounds(a: int, p: nat)
    requires p >= 1
    ensures a >= 0 ==> 0 <= a / p <= a
    ensures a < 0 ==> a <= a / p < 0
  {
    var q, r := a / p, a % p;
    assert a == q * p + r && 0 <= r < p;
    MulSign(q, p);
    MulSign(q + 1, p);
    assert (q + 1) * p == q * p + p;
  }

  /** Java `a << s`: the distance is s masked to five bits; overflowing bits are lost. */
  function Shl(a: Int32, s: int): Int32 {
    Wrap(a * Pow2(s % 32))
  }

  /** Java `a >> s`: floor division by 2^(s mod 32), so the sign is kept. */
  function Shr(a: Int32, s: int): (r: Int32) {
    DivBounds(a, Pow2(s % 32));
    a / Pow2(s % 32)
  }

  /** Java `a >>> s`: the 32 bits read as unsigned, shifted, with zeros coming in at the top. */
  function UShr(a: Int32, s: int): Int32 {
    Wrap(Unsigned(a) / Pow2(s % 32))
  }

  /** `a >> s` is the floor of a / 2^(s mod 32). */
  lemma ShrIsFloorDivision(a: Int32, s: int)
    ensures Shr(a, s) * Pow2(s % 32) <= a < (Shr(a, s) + 1) * Pow2(s % 32)
    ensures Shr(a, s) < 0 <==> a < 0
  {
    var p := Pow2(s % 32);
    DivBounds(a, p);
    assert a == a / p * p + a % p;
    assert (a / p + 1) * p == a / p * p + p;
  }

  /** `>>>` and `>>` agree on non-negative numbers; `>>>` by a non-zero distance is never negative. */
  lemma UShrProperties(a: Int32, s: int)
    ensures a >= 0 ==> UShr(a, s) == Shr(a, s)
    ensures s % 32 != 0 ==> UShr(a, s) >= 0
    ensures a < 0 && s % 32 != 0 ==> UShr(a, s) == Shr(a, s) + Pow2(32 - s % 32)
  {
    if s % 32 != 0 {
      UShrNonNegative(a, s);
      if a < 0 {
        UShrNegative(a, s);
      }
    }
  }

  /** Shifting right by at least one bit leaves a 31-bit number. */
  lemma UShrNonNegative(a: Int32, s: int)
    requires s % 32 != 0
    ensures UShr(a, s) >= 0
  {
    var p := Pow2(s % 32);
    var u := Unsigned(a);
    DivBounds(u, p);
    assert p == 2 * Pow2(s % 32 - 1);
    var q := u / p;
    assert q * p <= u;
    MulSign(q, Pow2(s % 32 - 1));
    assert q * p == 2 * (q * Pow2(s % 32 - 1));
    assert 2 * q <= u;
  }

  /** Floor division is unique: a quotient and a remainder in [0, p) determine x / p. */
  lemma DivUnique(x: int, p: nat, q: int, r: int)
    requires p >= 1 && x == q * p + r && 0 <= r < p
    ensures x / p == q
  {
    var q', r' := x / p, x % p;
    assert x == q' * p + r' && 0 <= r' < p;
    if q' > q {
      assert (q' - q) * p == r - r';
      MulSign(p, q' - q);
    } else if q' < q {
      assert (q - q') * p == r' - r;
      MulSign(p, q - q');
    }
  }

  /** Adding m multiples of p to the dividend adds m to the quotient. */
  lemma DivAddMultiple(a: int, p: nat, m: int)
    requires p >= 1
    ensures (a + p * m) / p == a / p + m
  {
    var q, r := a / p, a % p;
    assert a == q * p + r && 0 <= r < p;
    assert a + p * m == (q + m) * p + r;
    DivUnique(a + p * m, p, q + m, r);
  }

  /**
   * Section 15.19 of the Java Language Specification: for a negative `a` and a
   * distance whose low five bits k are not all zero, `a >>> s` is `(a >> s) + 2^(32 - k)`.
   */
  lemma UShrNegative(a: Int32, s: int)
    requires a < 0 && s % 32 != 0
    ensures UShr(a, s) == Shr(a, s) + Pow2(32 - s % 32)
  {
    var k := s % 32;
    var p, m := Pow2(k), Pow2(32 - k);
    Pow2Is32Bits();
    Pow2Add(k, 32 - k);
    assert Unsigned(a) == a + p * m;
    DivAddMultiple(a, p, m);
    DivBounds(a, p);
    Pow2Add(32 - k, k - 1);
    MulSign(m, Pow2(k - 1));
    assert Pow2(32) == 2 * Pow2(31);
    assert Unsigned(a) / p < m <= TWO_31;
  }

  /** `<<` uses only the low five bits of the distance; a multiple of 32 leaves the number as it is. */
  lemma ShlMasksDistance(a: Int32, s: int)
    ensures Shl(a, s) == Shl(a, s % 32)
    ensures s % 32 == 0 ==> Shl(a, s) == a
  {
    assert (s % 32) % 32 == s % 32;
    assert Pow2(0) == 1;
  }
}
