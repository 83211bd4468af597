/** Java's fixed-width integers and the exceptions the sketch can raise, written out over
    Dafny's unbounded `int` so that every wrap-around and every bitwise step is explicit. */
module Primitives {

  const TWO_31: int := 0x8000_0000
  const TWO_32: int := 0x1_0000_0000
  const TWO_64: int := 0x1_0000_0000_0000_0000

  /** Java `byte` */
  newtype int8 = x: int | -0x80 <= x < 0x80

  /** Java `int` */
  newtype int32 = x: int | -0x8000_0000 <= x < 0x8000_0000

  /** Java `long` */
  newtype int64 = x: int | -0x8000_0000_0000_0000 <= x < 0x8000_0000_0000_0000

  /** The exceptions the modelled code throws. */
  datatype Exception = IllegalArgumentException | ArrayIndexOutOfBoundsException

  /** How a Java call ends: it returns a value or throws. */
  datatype Outcome<T> = Returned(value: T) | Threw(exception: Exception)

  /** A reference that may be `null`. */
  datatype Option<T> = None | Some(value: T)

  function Pow2(n: nat): (r: nat)
    ensures r >= 1
  {
    if n == 0 then 1 else 2 * Pow2(n - 1)
  }

  lemma {:induction false} Pow2Add(a: nat, b: nat)
    ensures Pow2(a + b) == Pow2(a) * Pow2(b)
  {
    if a > 0 {
      Pow2Add(a - 1, b);
      calc {
        Pow2(a + b);
        2 * Pow2(a - 1 + b);
        2 * (Pow2(a - 1) * Pow2(b));
        (2 * Pow2(a - 1)) * Pow2(b);
      }
    }
  }

  lemma {:induction false} Pow2Monotonic(a: nat, b: nat)
    requires a <= b
    ensures Pow2(a) <= Pow2(b)
  {
    if a < b {
      Pow2Monotonic(a, b - 1);
    }
  }

  lemma Pow2Of16()
    ensures Pow2(16) == 0x1_0000
  {
    assert Pow2(4) == 16;
    Pow2Add(4, 4);
    Pow2Add(8, 8);
  }

  lemma Pow2Of32()
    ensures Pow2(32) == TWO_32 && Pow2(31) == TWO_31
  {
    Pow2Of16();
    Pow2Add(16, 16);
  }

  /** Every power of two up to `2^30` fits below the sign bit of an `int`, with room to double. */
  lemma Pow2BelowInt(k: nat)
    requires k <= 30
    ensures Pow2(k) <= TWO_31 / 2
  {
    Pow2Monotonic(k, 30);
    Pow2Of32();
  }

  /** Every power of two up to `2^63` fits in 64 bits. */
  lemma Pow2BelowLong(k: nat)
    requires k < 64
    ensures Pow2(k) < TWO_64
  {
    Pow2Monotonic(k, 63);
    Pow2Of32();
    Pow2Add(32, 31);
  }

  lemma Pow2Of64()
    ensures Pow2(64) == TWO_64
  {
    Pow2Of32();
    Pow2Add(32, 32);
  }

  /** `2^p * 2^(64 - p) == 2^64` */
  lemma Pow2Split64(p: nat)
    requires p <= 64
    ensures Pow2(p) * Pow2(64 - p) == TWO_64
  {
    Pow2Add(p, 64 - p);
    Pow2Of64();
  }

  lemma {:induction false} MulAtLeast(d: nat, z: nat)
    requires z >= 1
    ensures d * z >= d
  {
    if z > 1 {
      MulAtLeast(d, z - 1);
      assert d * z == d * (z - 1) + d;
    }
  }

  lemma MulMonotonic(d: nat, a: int, b: int)
    requires a <= b
    ensures d * a <= d * b
  {
    if a < b {
      MulAtLeast(d, b - a);
      assert d * b - d * a == d * (b - a);
    }
  }

  /** Euclidean division is unique: `d * q + r` with `0 <= r < d` divides back to `q` and `r`. */
  lemma DivModUnique(x: int, d: int, q: int, r: int)
    requires d > 0 && 0 <= r < d && x == d * q + r
    ensures x / d == q && x % d == r
  {
    var q', r' := x / d, x % d;
    assert d * (q' - q) == r - r' by {
      assert d * q' + r' == d * q + r;
    }
    if q' > q {
      MulAtLeast(d, q' - q);
    } else if q' < q {
      MulAtLeast(d, q - q');
    }
  }

  lemma DivideExactly(x: int, d: nat, q: int)
    requires d > 0 && x == d * q
    ensures x % d == 0 && x / d == q
  {
    DivModUnique(x, d, q, 0);
  }

  lemma ModZeroIsMultiple(x: int, d: int)
    requires d > 0 && x % d == 0
    ensures x == d * (x / d)
  {
  }

  lemma DoubleMultiple(x: int, d: int, q: int)
    requires x == d * q
    ensures 2 * x == (2 * d) * q
  {
  }

  lemma DivNonNegative(x: nat, d: nat)
    requires d > 0
    ensures 0 <= x / d
  {
  }

  lemma DivBelow(x: nat, d: nat, b: nat)
    requires d > 0 && x < d * b
    ensures x / d < b
  {
    if x / d >= b {
      MulMonotonic(d, b, x / d);
    }
  }

  /** Java's narrowing cast `(byte) x`: keeps the low eight bits as a signed value. */
  function ToByte(x: int): (r: int8)
    ensures -0x80 <= x < 0x80 ==> r as int == x
  {
    if -0x80 <= x < 0x80 then x as int8 else (((x + 0x80) % 0x100) - 0x80) as int8
  }

  /** Java's 32-bit wrap-around: keeps the low 32 bits as a signed value. */
  function ToInt32(x: int): (r: int32)
    ensures -TWO_31 <= x < TWO_31 ==> r as int == x
  {
    if -TWO_31 <= x < TWO_31 then x as int32 else (((x + TWO_31) % TWO_32) - TWO_31) as int32
  }

  /** Java's `int` addition `a + b`. */
  function IntAdd(a: int32, b: int32): int32
  {
    ToInt32(a as int + b as int)
  }

  /** Java's `int` multiplication `a * b`. */
  function IntMul(a: int32, b: int32): int32
  {
    ToInt32(a as int * b as int)
  }

  /** Wrapping changes a value by a multiple of `2^32` only. */
  lemma ToInt32Congruent(x: int)
    ensures (ToInt32(x) as int - x) % TWO_32 == 0
  {
  }

  /** Values that agree modulo `2^32` wrap to the same `int`. */
  lemma ToInt32Unique(x: int, y: int)
    requires (x - y) % TWO_32 == 0
    ensures ToInt32(x) == ToInt32(y)
  {
    ToInt32Congruent(x);
    ToInt32Congruent(y);
    var d := ToInt32(x) as int - ToInt32(y) as int;
    assert d % TWO_32 == 0;
  }

  /** `int` addition: wrapping an operand first and wrapping the sum once agree. */
  lemma WrapAdd(a: int, b: int)
    ensures ToInt32(ToInt32(a) as int + b) == ToInt32(a + b)
  {
    ToInt32Congruent(a);
    ToInt32Unique(ToInt32(a) as int + b, a + b);
  }

  /** `int` multiplication by 31: wrapping the operand first and wrapping the product once agree. */
  lemma WrapTimes31(a: int)
    ensures ToInt32(31 * ToInt32(a) as int) == ToInt32(31 * a)
  {
    ToInt32Congruent(a);
    var d := ToInt32(a) as int - a;
    ModZeroIsMultiple(d, TWO_32);
    assert 31 * ToInt32(a) as int - 31 * a == TWO_32 * (31 * (d / TWO_32));
    ToInt32Unique(31 * ToInt32(a) as int, 31 * a);
  }

  /** The unsigned reading of an `int`'s 32-bit pattern. */
  function Unsigned32(a: int32): (r: nat)
    ensures r < TWO_32
  {
    if a < 0 then a as int + TWO_32 else a as int
  }

  /** The unsigned reading of a `long`'s 64-bit pattern. */
  function Unsigned64(h: int64): (r: nat)
    ensures r < TWO_64
  {
    if h < 0 then h as int + TWO_64 else h as int
  }

  /** Bitwise or of two non-negative bit patterns. */
  function BitOr(a: nat, b: nat): (r: nat)
    ensures a <= r <= a + b
    ensures b <= r
    decreases a + b
  {
    if a == 0 then b
    else if b == 0 then a
    else 2 * BitOr(a / 2, b / 2) + (if a % 2 == 1 || b % 2 == 1 then 1 else 0)
  }

  /** Or-ing a pattern into the zero bits below a single set bit is addition. */
  lemma {:induction false} BitOrBelowPow2(k: nat, b: nat)
    requires b < Pow2(k)
    ensures BitOr(Pow2(k), b) == Pow2(k) + b
  {
    if b != 0 {
      assert k > 0;
      BitOrBelowPow2(k - 1, b / 2);
    }
  }

  /** Java `a / b` on `int` with a positive divisor: the quotient is rounded toward zero. */
  function IntDiv(a: int32, b: int32): int32
    requires b > 0
  {
    if a >= 0 then (a as int / b as int) as int32 else (-((-(a as int)) / b as int)) as int32
  }

  /** Java `x << s` on `int`: only the low five bits of the distance count, and the result wraps. */
  function IntShiftLeft(x: int32, s: int): int32
  {
    ToInt32(x as int * Pow2(s % 32))
  }

  /** `1 << s` is the power of two while the set bit stays below the sign bit. */
  lemma IntShiftLeftOne(s: nat)
    requires s <= 30
    ensures IntShiftLeft(1, s) as int == Pow2(s)
  {
    Pow2BelowInt(s);
    assert s % 32 == s;
    var shifted := 1 * Pow2(s % 32);
    assert shifted == Pow2(s);
    assert ToInt32(shifted) as int == shifted;
  }

  /** Java `a | b` on `int`: bitwise or of the two's-complement patterns. */
  function IntOr(a: int32, b: int32): int32
  {
    ToInt32(BitOr(Unsigned32(a), Unsigned32(b)))
  }

  /** On non-negative operands whose or stays below the sign bit, `|` is `BitOr`. */
  lemma IntOrNonNegative(a: int32, b: int32)
    requires 0 <= a && 0 <= b && BitOr(a as int, b as int) < TWO_31
    ensures IntOr(a, b) as int == BitOr(a as int, b as int)
  {
  }
}
