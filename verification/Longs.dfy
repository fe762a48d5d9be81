/** 64-bit integers as two signed 32-bit halves, added and multiplied in 16-bit limbs. */
module Longs {
  import opened Arithmetic

  const P16: int := 0x1_0000
  const P32: int := 0x1_0000_0000
  const P48: int := 0x1_0000_0000_0000
  const P63: int := 0x8000_0000_0000_0000
  const P64: int := 0x1_0000_0000_0000_0000

  type int32 = x: int | -0x8000_0000 <= x < 0x8000_0000

  datatype Long = Long(low: int32, high: int32)

  const ZERO: Long := Long(0, 0)
  const ONE: Long := Long(1, 0)

  // ----- the 32-bit operators of the language -----

  function ToInt32(x: int): int32 {
    var m := x % P32;
    if m >= 0x8000_0000 then m - P32 else m
  }

  function U32(x: int32): nat {
    if x < 0 then x + P32 else x
  }

  /** x >>> 16, of a number that need not be a 32-bit integer yet. */
  function Shr16(x: int): nat {
    x % P32 / P16
  }

  function And16(x: int): nat {
    x % P16
  }

  // ----- what a pair of halves means -----

  function Bits(a: Long): nat {
    U32(a.high) * P32 + U32(a.low)
  }

  function Value(a: Long): int {
    a.high * P32 + U32(a.low)
  }

  function Wrap(x: int): int {
    (x + P63) % P64 - P63
  }

  /** The two's complement reading of the halves, and wrapping around: the number from -2^63 up to 2^63 - 1 that is
      the same modulo 2^64. */
  lemma Meanings(a: Long, x: int)
    ensures Value(a) == a.high * 4294967296 + if a.low < 0 then a.low + 4294967296 else a.low
    ensures 0 <= Bits(a) < 18446744073709551616 && (Bits(a) - Value(a)) % 18446744073709551616 == 0
    ensures -9223372036854775808 <= Wrap(x) < 9223372036854775808 && (Wrap(x) - x) % 18446744073709551616 == 0
  {
  }

  lemma ValueOfBits(a: Long)
    ensures Value(a) == if Bits(a) >= P63 then Bits(a) - P64 else Bits(a)
    ensures -P63 <= Value(a) < P63 && Value(a) == Wrap(Bits(a))
  {
  }

  lemma WordOfLimbs(high: nat, low: nat)
    requires high < P16 && low < P16
    ensures high * P16 + low < P32 && U32(ToInt32(high * P16 + low)) == high * P16 + low
  {
  }

  function FromLimbs(c48: nat, c32: nat, c16: nat, c00: nat): (r: Long)
    requires c48 < P16 && c32 < P16 && c16 < P16 && c00 < P16
    ensures Bits(r) == c48 * P48 + c32 * P32 + c16 * P16 + c00
  {
    WordOfLimbs(c16, c00);
    WordOfLimbs(c48, c32);
    Long(ToInt32(c16 * P16 + c00), ToInt32(c48 * P16 + c32))
  }

  datatype Limbs = Limbs(l48: nat, l32: nat, l16: nat, l00: nat) {
    ghost predicate Small() {
      l48 < P16 && l32 < P16 && l16 < P16 && l00 < P16
    }
    ghost function Sum(): nat {
      l48 * P48 + l32 * P32 + l16 * P16 + l00
    }
  }

  function Split(a: Long): (r: Limbs)
    ensures r.Small() && r.Sum() == Bits(a)
  {
    Limbs(U32(a.high) / P16, U32(a.high) % P16, U32(a.low) / P16, U32(a.low) % P16)
  }

  // ----- addition -----

  /** Below 2^32 the two operators take a number apart; at 2^32 `>>>` would lose a carry. */
  lemma Carry(c: int)
    requires 0 <= c < P32
    ensures c == Shr16(c) * P16 + And16(c) && 0 <= And16(c) < P16 && 0 <= Shr16(c) < P16
  {
  }

  lemma Remainder(t: int, k: int, r: int)
    requires t == k * P64 + r && 0 <= r < P64
    ensures t % P64 == r
  {
  }

  method Add(a: Long, b: Long) returns (r: Long)
    ensures Bits(r) == (Bits(a) + Bits(b)) % P64
  {
    var x, y := Split(a), Split(b);
    var c48, c32, c16, c00 := 0, 0, 0, 0;
    c00 := c00 + x.l00 + y.l00;
    ghost var t00 := c00;
    Carry(t00);
    c16 := c16 + Shr16(c00);
    c00 := And16(c00);
    c16 := c16 + x.l16 + y.l16;
    ghost var t16 := c16;
    Carry(t16);
    c32 := c32 + Shr16(c16);
    c16 := And16(c16);
    c32 := c32 + x.l32 + y.l32;
    ghost var t32 := c32;
    Carry(t32);
    c48 := c48 + Shr16(c32);
    c32 := And16(c32);
    c48 := c48 + x.l48 + y.l48;
    ghost var t48 := c48;
    Carry(t48);
    c48 := And16(c48);
    r := FromLimbs(c48, c32, c16, c00);
    Remainder(Bits(a) + Bits(b), Shr16(t48), Bits(r));
  }

  // ----- multiplication -----

  const MAX_PRODUCT: int := 0xFFFE_0001 // (2^16 - 1) squared

  lemma ProductBound(a: nat, b: nat)
    requires a < P16 && b < P16
    ensures 0 <= a * b <= MAX_PRODUCT
  {
    var m := P16 - 1;
    assert a * b <= m * b by { MulMonotone(a, m, b); }
    assert m * b <= m * m by { MulMonotone(b, m, m); }
  }

  /** The sixteen partial products, of which the ten below 2^64 matter. */
  lemma Expand(x: Limbs, y: Limbs)
    ensures exists k ::
      x.Sum() * y.Sum() == x.l00 * y.l00 + P16 * (x.l16 * y.l00 + x.l00 * y.l16)
        + P32 * (x.l32 * y.l00 + x.l16 * y.l16 + x.l00 * y.l32)
        + P48 * (x.l48 * y.l00 + x.l32 * y.l16 + x.l16 * y.l32 + x.l00 * y.l48) + k * P64
  {
    var k := (x.l48 * y.l16 + x.l32 * y.l32 + x.l16 * y.l48) + P16 * (x.l48 * y.l32 + x.l32 * y.l48)
      + P32 * (x.l48 * y.l48);
    assert x.Sum() * y.Sum() == x.l00 * y.l00 + P16 * (x.l16 * y.l00 + x.l00 * y.l16)
        + P32 * (x.l32 * y.l00 + x.l16 * y.l16 + x.l00 * y.l32)
        + P48 * (x.l48 * y.l00 + x.l32 * y.l16 + x.l16 * y.l32 + x.l00 * y.l48) + k * P64;
  }

  /** The partial products that reach below 2^64, by the limbs they multiply. */
  datatype Products = Products(p00: int, p10: int, p01: int, p20: int, p11: int, p02: int, p30: int, p21: int,
                               p12: int, p03: int) {
    ghost predicate Small() {
      && 0 <= p00 <= MAX_PRODUCT && 0 <= p10 <= MAX_PRODUCT && 0 <= p01 <= MAX_PRODUCT && 0 <= p20 <= MAX_PRODUCT
      && 0 <= p11 <= MAX_PRODUCT && 0 <= p02 <= MAX_PRODUCT && 0 <= p30 <= MAX_PRODUCT && 0 <= p21 <= MAX_PRODUCT
      && 0 <= p12 <= MAX_PRODUCT && 0 <= p03 <= MAX_PRODUCT
    }
    ghost function Sum(): int {
      p00 + P16 * (p10 + p01) + P32 * (p20 + p11 + p02) + P48 * (p30 + p21 + p12 + p03)
    }
  }

  /** The greatest number a product passes to `>>>`; 2^32 would lose a carry. */
  const MAX_SHIFTED: int := P32 - 2

  /** The column sums of the product.  `shifted` is every number that goes through `>>>`, in order. */
  method SumColumns(p: Products) returns (r: Long, ghost shifted: seq<int>)
    requires p.Small()
    ensures Bits(r) == p.Sum() % P64
    ensures |shifted| == 6 && forall i :: 0 <= i < 6 ==> 0 <= shifted[i] <= MAX_SHIFTED
    ensures p.p00 == p.p10 == p.p01 == p.p20 == MAX_PRODUCT ==> shifted[3] == MAX_SHIFTED
  {
    var c48, c32, c16, c00 := 0, 0, 0, 0;
    c00 := c00 + p.p00;
    ghost var s1 := c00;
    Carry(s1);
    c16 := c16 + Shr16(c00);
    c00 := And16(c00);
    c16 := c16 + p.p10;
    ghost var s2 := c16;
    Carry(s2);
    c32 := c32 + Shr16(c16);
    c16 := And16(c16);
    c16 := c16 + p.p01;
    ghost var s3 := c16;
    Carry(s3);
    c32 := c32 + Shr16(c16);
    c16 := And16(c16);
    c32 := c32 + p.p20;
    ghost var s4 := c32;
    Carry(s4);
    c48 := c48 + Shr16(c32);
    c32 := And16(c32);
    c32 := c32 + p.p11;
    ghost var s5 := c32;
    Carry(s5);
    c48 := c48 + Shr16(c32);
    c32 := And16(c32);
    c32 := c32 + p.p02;
    ghost var s6 := c32;
    Carry(s6);
    c48 := c48 + Shr16(c32);
    c32 := And16(c32);
    c48 := c48 + (p.p30 + p.p21 + p.p12 + p.p03);
    ghost var s7 := c48;
    c48 := And16(c48);
    r := FromLimbs(c48, c32, c16, c00);
    shifted := [s1, s2, s3, s4, s5, s6];
    Remainder(p.Sum(), s7 / P16, Bits(r));
  }

  function PartialProducts(x: Limbs, y: Limbs): (p: Products)
    requires x.Small() && y.Small()
    ensures p.Small()
  {
    ProductBound(x.l00, y.l00); ProductBound(x.l16, y.l00); ProductBound(x.l00, y.l16); ProductBound(x.l32, y.l00);
    ProductBound(x.l16, y.l16); ProductBound(x.l00, y.l32); ProductBound(x.l48, y.l00); ProductBound(x.l32, y.l16);
    ProductBound(x.l16, y.l32); ProductBound(x.l00, y.l48);
    Products(x.l00 * y.l00, x.l16 * y.l00, x.l00 * y.l16, x.l32 * y.l00, x.l16 * y.l16, x.l00 * y.l32,
             x.l48 * y.l00, x.l32 * y.l16, x.l16 * y.l32, x.l00 * y.l48)
  }

  lemma ModAdd(t: int, k: int)
    ensures (t + k * P64) % P64 == t % P64
  {
  }

  /** The limb product is the product of the bit patterns modulo 2^64. */
  method MultiplyLimbs(a: Long, b: Long) returns (r: Long, ghost shifted: seq<int>)
    ensures Bits(r) == Bits(a) * Bits(b) % P64
    ensures |shifted| == 6 && forall i :: 0 <= i < 6 ==> 0 <= shifted[i] <= MAX_SHIFTED
    ensures Bits(a) == Bits(b) == P64 - 1 ==> shifted[3] == MAX_SHIFTED
  {
    r, shifted := SumColumns(PartialProducts(Split(a), Split(b)));
    ProductMod(Split(a), Split(b));
  }

  lemma ProductMod(x: Limbs, y: Limbs)
    requires x.Small() && y.Small()
    ensures x.Sum() * y.Sum() % P64 == PartialProducts(x, y).Sum() % P64
  {
    var p := PartialProducts(x, y);
    Expand(x, y);
    var k :| x.Sum() * y.Sum() == p.Sum() + k * P64;
    ModAdd(p.Sum(), k);
  }

  // ----- signed operations -----
  // The guards that compare with Long.MIN_VALUE never hold for a pair of 32-bit halves: that constant is
  // built from low bits 0x80000000, which no 32-bit integer equals.  They are therefore absent here.

  lemma WrapMod(x: int)
    ensures Wrap(x % P64) == Wrap(x) && -P63 <= Wrap(x) < P63
  {
  }

  lemma WrapId(x: int)
    requires -P63 <= x < P63
    ensures Wrap(x) == x
  {
  }

  lemma WrapBits(a: Long)
    ensures Wrap(Bits(a)) == Value(a) && (Bits(a) - Value(a)) % P64 == 0
  {
  }

  lemma WrapCongruent(x: int, y: int)
    requires (x - y) % P64 == 0
    ensures Wrap(x) == Wrap(y)
  {
    var k := (x - y) / P64;
    var r := (y + P63) % P64;
    Remainder(x + P63, (y + P63) / P64 + k, r);
  }

  /** Addition of signed values wraps around. */
  method AddSigned(a: Long, b: Long) returns (r: Long)
    ensures Value(r) == Wrap(Value(a) + Value(b))
  {
    r := Add(a, b);
    WrapBits(r);
    WrapMod(Bits(a) + Bits(b));
    WrapCongruent(Bits(a) + Bits(b), Value(a) + Value(b));
  }

  function Not(a: Long): (r: Long)
    ensures Value(r) == -1 - Value(a)
  {
    Long(-1 - a.low, -1 - a.high)
  }

  method Negate(a: Long) returns (r: Long)
    ensures Value(r) == Wrap(-Value(a))
  {
    r := AddSigned(Not(a), ONE);
  }

  // ----- where the sign cases of a product lead -----

  /** No sign case is left to take. */
  predicate Plain(x: int, y: int) {
    x == 0 || y == 0 || (x > 0 && y > 0)
  }

  /** The factors that a product with a negative factor is handed on with. */
  function SignCase(x: int, y: int): (int, int) {
    if x < 0 then (Wrap(-x), if y < 0 then Wrap(-y) else y) else (x, if y < 0 then Wrap(-y) else y)
  }

  /** The sign cases are over after at most n of them. */
  predicate Ends(x: int, y: int, n: nat)
    decreases n
  {
    Plain(x, y) || (n > 0 && var (x', y') := SignCase(x, y); Ends(x', y', n - 1))
  }

  lemma {:induction false} NeverEnds(x: int, y: int, n: nat)
    requires -P63 <= x < P63 && -P63 <= y < P63 && x != 0 && y != 0 && (x == -P63 || y == -P63)
    ensures !Ends(x, y, n)
    decreases n
  {
    if n > 0 {
      NeverEnds(SignCase(x, y).0, SignCase(x, y).1, n - 1);
    }
  }

  /** A product's sign cases end exactly when a factor is zero or neither is -2^63, and then one is enough. */
  lemma SignCasesEnd(x: int, y: int)
    requires -P63 <= x < P63 && -P63 <= y < P63
    ensures Ends(x, y, 1) <==> x == 0 || y == 0 || (x != -P63 && y != -P63)
    ensures forall n: nat :: Ends(x, y, n) ==> Ends(x, y, 1)
  {
    var (x', y') := SignCase(x, y);
    assert Ends(x', y', 0) <==> Plain(x', y');
    if x != 0 && y != 0 && (x == -P63 || y == -P63) {
      forall n: nat ensures !Ends(x, y, n) {
        NeverEnds(x, y, n);
      }
    }
  }

  function IsNegative(a: Long): (n: bool)
    ensures n == (Value(a) < 0)
  {
    a.high < 0
  }

  /** Of two values with the same sign the wrapped difference has the sign of the true one. */
  lemma SameSigns(x: int, y: int)
    requires -P63 <= x < P63 && -P63 <= y < P63 && (x < 0 <==> y < 0)
    ensures Wrap(x + Wrap(-y)) == x - y
  {
    WrapCongruent(x + Wrap(-y), x - y);
    WrapId(x - y);
  }

  /** The order of the values, for all values. */
  method Compare(a: Long, b: Long) returns (r: int)
    ensures r == if Value(a) < Value(b) then -1 else if Value(a) == Value(b) then 0 else 1
  {
    SameValue(a, b);
    if a == b {
      return 0;
    }
    if IsNegative(a) && !IsNegative(b) {
      return -1;
    }
    if !IsNegative(a) && IsNegative(b) {
      return 1;
    }
    var n := Negate(b);
    var d := AddSigned(a, n);
    ValueOfBits(a);
    ValueOfBits(b);
    SameSigns(Value(a), Value(b));
    return if IsNegative(d) then -1 else 1;
  }

  method LessThan(a: Long, b: Long) returns (less: bool)
    ensures less == (Value(a) < Value(b))
  {
    var c := Compare(a, b);
    return c < 0;
  }

  lemma SameValue(a: Long, b: Long)
    ensures Value(a) == Value(b) <==> a == b
  {
  }

  /** The long of an integer that a floating-point number holds exactly. */
  method FromNumber(v: int) returns (r: Long)
    requires -0x20_0000_0000_0000 <= v <= 0x20_0000_0000_0000
    ensures Value(r) == v
    decreases v < 0
  {
    if v < 0 {
      var p := FromNumber(-v);
      r := Negate(p);
      WrapId(v);
    } else {
      r := Long(ToInt32(v % P32), ToInt32(v / P32));
    }
  }

  /** The product of two values without a sign. */
  method MultiplyPositive(a: Long, b: Long) returns (r: Long)
    requires Value(a) >= 0 && Value(b) >= 0
    ensures Value(r) == Wrap(Value(a) * Value(b))
  {
    ValueOfBits(a);
    ValueOfBits(b);
    var bound := FromNumber(0x100_0000);
    var smallA := LessThan(a, bound);
    var smallB := LessThan(b, bound);
    if smallA && smallB {
      SmallProduct(Value(a), Value(b));
      r := FromNumber(Value(a) * Value(b));
      WrapId(Value(a) * Value(b));
    } else {
      ghost var shifted: seq<int>;
      r, shifted := MultiplyLimbs(a, b);
      WrapBits(r);
      WrapMod(Value(a) * Value(b));
    }
  }

  method NegateProper(a: Long) returns (r: Long)
    requires Value(a) < 0 && Value(a) != -P63
    ensures Value(r) == -Value(a) > 0
  {
    r := Negate(a);
    ValueOfBits(a);
    WrapId(-Value(a));
  }

  method Multiply(a: Long, b: Long) returns (r: Long)
    requires a == ZERO || b == ZERO || (Value(a) != -P63 && Value(b) != -P63)
    ensures Value(r) == Wrap(Value(a) * Value(b))
    decreases IsNegative(a), IsNegative(b)
  {
    WrapSigns(Value(a), Value(b));
    if a == ZERO || b == ZERO {
      return ZERO;
    }
    if IsNegative(a) {
      var na := NegateProper(a);
      if IsNegative(b) {
        var nb := NegateProper(b);
        r := Multiply(na, nb);
      } else {
        var p := Multiply(na, b);
        r := Negate(p);
      }
    } else if IsNegative(b) {
      var nb := NegateProper(b);
      var p := Multiply(a, nb);
      r := Negate(p);
    } else {
      r := MultiplyPositive(a, b);
    }
  }

  lemma WrapSigns(x: int, y: int)
    ensures Wrap((-x) * (-y)) == Wrap(x * y)
    ensures Wrap(-Wrap((-x) * y)) == Wrap(x * y) && Wrap(-Wrap(x * (-y))) == Wrap(x * y)
    ensures x == 0 || y == 0 ==> x * y == 0 && Wrap(x * y) == 0
  {
    var p := x * y;
    assert (-x) * (-y) == p && (-x) * y == -p && x * (-y) == -p;
    NegatedWrap(p);
  }

  lemma NegatedWrap(x: int)
    ensures Wrap(-Wrap(-x)) == Wrap(x)
  {
    var k := (-x + P63) / P64;
    assert Wrap(-x) == -x - k * P64;
    assert -Wrap(-x) - x == k * P64;
    WrapCongruent(-Wrap(-x), x);
  }

  lemma SmallProduct(x: nat, y: nat)
    requires x < 0x100_0000 && y < 0x100_0000
    ensures 0 <= x * y <= 0x1_0000_0000_0000
  {
    MulMonotone(x, 0x100_0000, y);
    MulMonotone(y, 0x100_0000, 0x100_0000);
  }

  // ----- shifting -----

  lemma U32OfToInt32(x: int)
    ensures U32(ToInt32(x)) == x % P32
  {
  }

  lemma ModP32(x: int, k: int)
    ensures (x + k * P32) % P32 == x % P32
  {
  }

  /** Multiplying the signed half is multiplying the unsigned one, modulo 2^32. */
  lemma SignedHalf(x: int32, p: nat)
    ensures x * p % P32 == U32(x) * p % P32
  {
    if x < 0 {
      assert U32(x) * p == x * p + p * P32;
      ModP32(x * p, p);
    }
  }

  /** Shifting l == q * a + b by p, where p * q == 2^32, moves a into the high half. */
  lemma ShiftCore(h: nat, l: nat, p: nat, q: nat, a: nat, b: nat)
    requires p * q == P32 && l == q * a + b && b < q
    ensures 0 <= b * p < P32 && l * p == a * P32 + b * p
    ensures (h * P32 + l) * p == (h * p + a) * P32 + b * p
  {
    assert l * p == a * P32 + b * p by {
      assert (q * a + b) * p == (q * a) * p + b * p;
      assert (q * a) * p == a * (p * q);
    }
    assert b * p < P32 by {
      MulMonotone(b + 1, q, p);
      assert (b + 1) * p == b * p + p;
      assert p > 0;
    }
    assert (h * P32 + l) * p == (h * p) * P32 + l * p;
  }

  lemma ShiftHalves(t: int, bp: int)
    requires 0 <= bp < P32
    ensures (t * P32 + bp) % P64 == t % P32 * P32 + bp && (t * P32 + bp) % P32 == bp
  {
    var k, h := t / P32, t % P32;
    assert t == k * P32 + h;
    Remainder(t * P32 + bp, k, h * P32 + bp);
  }

  /** The two halves of a shift; `+` joins parts that share no bit. */
  method ShiftLeft(a: Long, numBits: nat) returns (r: Long)
    ensures Bits(r) == Bits(a) * Pow2(numBits % 64) % P64
  {
    var n := numBits % 64;
    if n == 0 {
      return a;
    } else if n < 32 {
      r := Long(ToInt32(a.low * Pow2(n)), ToInt32(ToInt32(a.high * Pow2(n)) + U32(a.low) / Pow2(32 - n)));
      Pow2Sum(n, 32 - n);
      Pow2Of32();
      ShiftLow(a, Pow2(n), Pow2(32 - n), r);
    } else {
      r := Long(0, ToInt32(a.low * Pow2(n - 32)));
      ShiftHigh(a, n, r);
    }
  }

  lemma ShiftGlue(h: nat, l: nat, p: nat, q: nat, hi: int, lo: int)
    requires p * q == P32 && q > 0 && hi == (h * p + l / q) % P32 && lo == l * p % P32
    ensures hi * P32 + lo == (h * P32 + l) * p % P64
  {
    var a, b := l / q, l % q;
    ShiftCore(h, l, p, q, a, b);
    ShiftHalves(h * p + a, b * p);
    ShiftHalves(a, b * p);
  }

  lemma ShiftLow(x: Long, p: nat, q: nat, r: Long)
    requires p * q == P32 && q > 0
    requires r == Long(ToInt32(x.low * p), ToInt32(ToInt32(x.high * p) + U32(x.low) / q))
    ensures Bits(r) == Bits(x) * p % P64
  {
    var h, l := U32(x.high), U32(x.low);
    var a := l / q;
    LowHalf(x.low, p);
    HighHalf(x.high, p, a);
    ShiftGlue(h, l, p, q, U32(r.high), U32(r.low));
  }

  lemma LowHalf(x: int32, p: nat)
    ensures U32(ToInt32(x * p)) == U32(x) * p % P32
  {
    SignedHalf(x, p);
    U32OfToInt32(x * p);
  }

  lemma HighHalf(x: int32, p: nat, a: int)
    ensures U32(ToInt32(ToInt32(x * p) + a)) == (U32(x) * p + a) % P32
  {
    SignedHalf(x, p);
    ToInt32Mod(x * p);
    SumMod(ToInt32(x * p), U32(x) * p, a);
    U32OfToInt32(ToInt32(x * p) + a);
  }

  lemma ToInt32Mod(x: int)
    ensures ToInt32(x) % P32 == x % P32
  {
  }

  lemma SumMod(x: int, y: int, z: int)
    requires x % P32 == y % P32
    ensures (x + z) % P32 == (y + z) % P32
  {
  }

  lemma ShiftHigh(x: Long, n: nat, r: Long)
    requires 32 <= n < 64 && r == Long(0, ToInt32(x.low * Pow2(n - 32)))
    ensures Bits(r) == Bits(x) * Pow2(n) % P64
  {
    var p := Pow2(n - 32);
    assert Pow2(n) == p * P32 by {
      Pow2Sum(n - 32, 32);
      Pow2Of32();
    }
    LowHalf(x.low, p);
    HighGlue(U32(x.high), U32(x.low), p, U32(r.high));
  }

  lemma HighGlue(h: nat, l: nat, p: nat, hi: int)
    requires hi == l * p % P32
    ensures hi * P32 == (h * P32 + l) * (p * P32) % P64
  {
    assert (h * P32 + l) * (p * P32) == (h * p) * P64 + (l * p) * P32;
    HighPart(h * p, l * p);
  }

  lemma HighPart(s: int, t: int)
    ensures (s * P64 + t * P32) % P64 == t % P32 * P32
  {
    Remainder(s * P64 + t * P32, s + t / P32, t % P32 * P32);
  }

  lemma ShiftedValue(a: Long, n: nat, r: Long)
    requires 0 <= Value(a) && n < 64 && Bits(r) == Bits(a) * Pow2(n) % P64 && 0 <= Value(a) * Pow2(n) < P63
    ensures Value(r) == Value(a) * Pow2(n)
  {
    ValueOfBits(a);
    ValueOfBits(r);
    assert Bits(a) == Value(a);
  }

  /** A shift or sum that stays below 2^63 is the arithmetic one. */
  method ShiftLeftSmall(a: Long, n: nat) returns (r: Long)
    requires Value(a) != 0 ==> n < 64
    requires 0 <= Value(a) && 0 <= Value(a) * Pow2(n) < P63
    ensures Value(r) == Value(a) * Pow2(n)
  {
    r := ShiftLeft(a, n);
    if Value(a) == 0 {
      assert Bits(a) == 0;
      ValueOfBits(r);
    } else {
      ShiftedValue(a, n, r);
    }
  }

  method AddSmall(a: Long, b: Long) returns (r: Long)
    requires -P63 <= Value(a) + Value(b) < P63
    ensures Value(r) == Value(a) + Value(b)
  {
    r := AddSigned(a, b);
    WrapId(Value(a) + Value(b));
  }
}
