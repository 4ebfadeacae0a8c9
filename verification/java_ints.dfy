/**
  Java's fixed-width integers as subsets of `int`, and the arithmetic facts that let
  the other modules state Java's bit operations exactly.

  A Java value is modelled by the mathematical integer it denotes (signed for
  `byte`, `int`, `long`). The bit operations the core uses are expressed through
  these identities on two's complement:
    - `x & (2^k - 1)` is `x % 2^k` (Dafny's `%` is Euclidean, never negative);
    - `x >> k` is `x / 2^k` (Dafny's `/` by a positive divisor rounds down);
    - `x >>> k` on a `long` is `Unsigned64(x) / 2^k`;
    - `a | b` on operands with disjoint bits is `a + b`.
 */
module JavaInts {

  const TWO_31: int := 0x8000_0000
  const TWO_32: int := 0x1_0000_0000
  const TWO_63: int := 0x8000_0000_0000_0000
  const TWO_64: int := 0x1_0000_0000_0000_0000

  /** A Java `byte`. */
  type Int8 = x: int | -128 <= x < 128
  /** A Java `int`. */
  type Int32 = x: int | -TWO_31 <= x < TWO_31
  /** A Java `long`. */
  type Int64 = x: int | -TWO_63 <= x < TWO_63
  /** The bit pattern of a Java `long`, read as an unsigned number. */
  type UInt64 = x: int | 0 <= x < TWO_64
  /** One octet of a byte stream, as `InputStream.read` returns it. */
  type Byte = x: int | 0 <= x < 256

  function Max(a: int, b: int): int {
    if a >= b then a else b
  }

  function Pow2(n: nat): (r: nat)
    ensures r >= 1
  {
    if n == 0 then 1 else 2 * Pow2(n - 1)
  }

  /** The bit pattern of a `long`. */
  function Unsigned64(x: Int64): (u: UInt64)
    ensures x >= 0 ==> u == x
    ensures x < 0 ==> u == x + TWO_64
  {
    x % TWO_64
  }

  /** The `long` whose bit pattern is `u`. */
  function Signed64(u: UInt64): (x: Int64)
    ensures Unsigned64(x) == u
  {
    if u < TWO_63 then u else u - TWO_64
  }

  /** Java's wrap-around of an integer result to 32 bits. */
  function Wrap32(x: int): (r: Int32)
    ensures (r - x) % TWO_32 == 0
    ensures -TWO_31 <= x < TWO_31 ==> r == x
  {
    (x + TWO_31) % TWO_32 - TWO_31
  }

  /**
    `Long.numberOfTrailingZeros` of a bit pattern: 64 for zero, otherwise the number
    of low zero bits.
   */
  function TrailingZeros64(u: UInt64): (r: nat)
    ensures r <= 64
    ensures r == 64 <==> u == 0
    ensures u != 0 ==> IsTrailingZeroCount(u, r)
  {
    if u == 0 then 64 else TrailingZerosBelow64(u); TrailingZeros(u)
  }

  /** `u` has exactly `k` low zero bits: it is `2^k` times an odd number. */
  ghost predicate IsTrailingZeroCount(u: nat, k: nat) {
    u % Pow2(k) == 0 && (u / Pow2(k)) % 2 == 1
  }

  function TrailingZeros(u: nat): (r: nat)
    requires u != 0
    ensures Pow2(r) <= u
    ensures IsTrailingZeroCount(u, r)
    decreases u
  {
    if u % 2 == 1 then 0
    else
      var k := TrailingZeros(u / 2);
      DivModMul(u, 2, Pow2(k));
      1 + k
  }

  /** A run that stops below bit 64 has fewer than 64 zeros in front of it. */
  lemma TrailingZerosBelow64(u: UInt64)
    requires u != 0
    ensures TrailingZeros(u) < 64
  {
    var k := TrailingZeros(u);
    if k >= 64 {
      Pow2Monotone(64, k);
      assert Pow2(64) == TWO_64 by { Pow2Of64(); }
      assert false;
    }
  }

  /** A pattern below `2^n` has its lowest set bit below `n`. */
  lemma TrailingZerosBound(u: nat, n: nat)
    requires 0 < u < Pow2(n)
    ensures TrailingZeros(u) < n
  {
    var k := TrailingZeros(u);
    if k >= n {
      Pow2Monotone(n, k);
      assert false;
    }
  }

  lemma Pow2Of64()
    ensures Pow2(64) == TWO_64
  {
    Pow2Of32();
    Pow2Add(32, 32);
  }

  lemma Pow2Of32()
    ensures Pow2(32) == TWO_32
    ensures Pow2(31) == TWO_31
  {
    assert Pow2(8) == 256;
    Pow2Add(8, 8);
    Pow2Add(16, 16);
    Pow2Add(16, 15);
    assert Pow2(15) == 32768;
  }

  lemma {:induction false} Pow2Add(a: nat, b: nat)
    ensures Pow2(a + b) == Pow2(a) * Pow2(b)
    decreases b
  {
    if b > 0 {
      Pow2Add(a, b - 1);
      assert Pow2(a + b) == 2 * Pow2(a + b - 1);
    }
  }

  lemma {:induction false} Pow2Monotone(a: nat, b: nat)
    requires a <= b
    ensures Pow2(a) <= Pow2(b)
    decreases b - a
  {
    if a < b {
      Pow2Monotone(a, b - 1);
    }
  }

  /** Java's `|` on two non-negative bit patterns. */
  function BitOr(a: nat, b: nat): (r: nat)
    decreases a + b
  {
    if a == 0 then b
    else if b == 0 then a
    else 2 * BitOr(a / 2, b / 2) + (if a % 2 == 1 || b % 2 == 1 then 1 else 0)
  }

  /** `|` keeps patterns below `2^n` below `2^n`. */
  lemma {:induction false} BitOrBound(a: nat, b: nat, n: nat)
    requires a < Pow2(n) && b < Pow2(n)
    ensures BitOr(a, b) < Pow2(n)
    decreases n
  {
    if a != 0 && b != 0 {
      BitOrBound(a / 2, b / 2, n - 1);
    }
  }

  /** `|` with a value shifted past every bit of `x` is addition. */
  lemma {:induction false} BitOrDisjoint(x: nat, y: nat, k: nat)
    requires x < Pow2(k)
    ensures BitOr(x, y * Pow2(k)) == x + y * Pow2(k)
    decreases k
  {
    if x != 0 && y != 0 {
      var z := y * Pow2(k - 1);
      assert y * Pow2(k) == 2 * z;
      BitOrDisjoint(x / 2, y, k - 1);
    } else if y == 0 {
      assert y * Pow2(k) == 0;
    }
  }

  /** Below a multiple `u * p` of `p` that is below `p * k` there is room for anything below `p`. */
  lemma RoomBelow(acc: nat, u: nat, p: nat, k: nat)
    requires acc < p && (u * p < p * k || u < k)
    ensures acc + u * p < p * k
  {
    if u >= k {
      MulLe(k, u, p);
      assert false;
    }
    MulLe(u + 1, k, p);
  }

  lemma MulLe(a: nat, b: nat, p: nat)
    requires a <= b
    ensures a * p <= b * p
  {
    assert b * p == a * p + (b - a) * p;
  }

  lemma SmallMod(y: nat, p: nat)
    requires y < p
    ensures y % p == y
  {
    DivModUnique(y, p, 0, y);
  }

  lemma DivBelow(x: nat, d: nat, q: nat)
    requires d > 0 && x < d * q
    ensures x / d < q
  {
    assert d * (x / d) <= x;
    if x / d >= q {
      assert false;
    }
  }

  /** `u >>> k` on a 64-bit pattern leaves at most `64 - k` significant bits. */
  lemma ShiftRightBound(u: UInt64, k: nat)
    requires k <= 64
    ensures u / Pow2(k) < Pow2(64 - k)
    ensures 0 <= u / Pow2(k) <= u
  {
    var a, b := Pow2(k), Pow2(64 - k);
    Pow2Add(k, 64 - k);
    Pow2Of64();
    assert a * b == TWO_64;
    DivBelow(u, a, b);
    DivAtMost(u, a);
  }

  lemma DivAtMost(x: nat, d: nat)
    requires d > 0
    ensures 0 <= x / d <= x
  {
    var q := x / d;
    assert d * q + x % d == x;
    if q > 0 {
      MulAtLeast(q, d);
    }
  }

  /** Division with remainder is unique. */
  lemma DivModUnique(x: int, d: int, q: int, r: int)
    requires d > 0
    requires x == d * q + r
    requires 0 <= r < d
    ensures x / d == q
    ensures x % d == r
  {
    var q0, r0 := x / d, x % d;
    var k := q - q0;
    assert d * k == r0 - r by {
      assert d * q0 + r0 == d * q + r;
      assert d * k == d * q - d * q0;
    }
    if k >= 1 {
      MulAtLeast(d, k);
    } else if k <= -1 {
      MulAtLeast(d, -k);
    }
  }

  lemma MulAtLeast(d: int, k: int)
    requires d > 0 && k >= 1
    ensures d * k >= d
  {
    assert d * k == d + d * (k - 1);
    assert d * (k - 1) >= 0;
  }

  /** Dividing by `a` then by `b` is dividing by `a * b`; the remainder splits too. */
  lemma DivModMul(x: int, a: nat, b: nat)
    requires a > 0 && b > 0
    ensures a * b > 0
    ensures x / a / b == x / (a * b)
    ensures x % (a * b) == (x / a) % b * a + x % a
  {
    var q, s := x / a, x % a;
    var t, u := q / b, q % b;
    var ab := a * b;
    MulPositive(a, b);
    Regroup(a, b, t, u, s);
    RemainderBelow(a, b, u, s);
    DivModUnique(x, ab, t, a * u + s);
  }

  /** `x / a / b == x / (a * b)`, on its own. */
  lemma DivDiv(x: int, a: nat, b: nat)
    requires a > 0 && b > 0
    ensures x / a / b == x / (a * b)
  {
    DivModMul(x, a, b);
  }

  lemma MulPred(k: nat, w: nat)
    requires k >= 1
    ensures k * w == (k - 1) * w + w
  {
  }

  lemma MulPositive(a: int, b: int)
    requires a > 0 && b > 0
    ensures a * b > 0
  {
    MulAtLeast(a, b);
  }

  lemma Regroup(a: int, b: int, t: int, u: int, s: int)
    ensures a * (b * t + u) + s == (a * b) * t + (a * u + s)
  {
  }

  lemma RemainderBelow(a: int, b: int, u: int, s: int)
    requires 0 <= u < b && 0 <= s < a
    ensures a * u + s < a * b
  {
    assert a * b == a * u + a * (b - u);
    MulAtLeast(a, b - u);
  }

  // ---------------------------------------------------------------------------
  // Shifts as functions of their own, so that the bit-level code is stated without
  // products of unknowns

  /** `x << k` without overflow: `x * 2^k`. */
  function ShiftLeft(x: int, k: nat): int
    decreases k
  {
    if k == 0 then x else 2 * ShiftLeft(x, k - 1)
  }

  /** `x >> k`: `x / 2^k`, rounded down. */
  function ShiftRight(x: int, k: nat): int
    decreases k
  {
    if k == 0 then x else ShiftRight(x, k - 1) / 2
  }

  /** `x & ((1 << k) - 1)`: the low `k` bits of `x`. */
  function LowBits(x: int, k: nat): int
    decreases k
  {
    if k == 0 then 0 else 2 * LowBits(x / 2, k - 1) + x % 2
  }

  lemma {:induction false} ShiftLeftIsMul(x: int, k: nat)
    ensures ShiftLeft(x, k) == x * Pow2(k)
    decreases k
  {
    if k > 0 {
      ShiftLeftIsMul(x, k - 1);
      assert x * Pow2(k) == 2 * (x * Pow2(k - 1));
    }
  }

  lemma {:induction false} ShiftRightIsDiv(x: int, k: nat)
    ensures ShiftRight(x, k) == x / Pow2(k)
    decreases k
  {
    if k > 0 {
      ShiftRightIsDiv(x, k - 1);
      DivDiv(x, Pow2(k - 1), 2);
      assert Pow2(k - 1) * 2 == Pow2(k);
    }
  }

  lemma {:induction false} LowBitsIsMod(x: int, k: nat)
    ensures LowBits(x, k) == x % Pow2(k)
    decreases k
  {
    if k > 0 {
      LowBitsIsMod(x / 2, k - 1);
      DivModMul(x, 2, Pow2(k - 1));
    }
  }

  /** Shifting by `a` and then by `b` is shifting by `n = a + b`. */
  lemma {:induction false} ShiftLeftAdd(x: int, a: nat, b: nat, n: nat)
    requires n == a + b
    ensures ShiftLeft(ShiftLeft(x, a), b) == ShiftLeft(x, n)
    decreases b
  {
    if b > 0 {
      ShiftLeftAdd(x, a, b - 1, n - 1);
    }
  }

  /** `<<` distributes over a sum. */
  lemma {:induction false} ShiftLeftSum(x: int, y: int, k: nat)
    ensures ShiftLeft(x + y, k) == ShiftLeft(x, k) + ShiftLeft(y, k)
    decreases k
  {
    if k > 0 {
      ShiftLeftSum(x, y, k - 1);
    }
  }

  /** An `a`-bit number shifted left by `b` has `n = a + b` bits. */
  lemma {:induction false} ShiftLeftBelow(x: int, a: nat, b: nat, n: nat)
    requires 0 <= x < Pow2(a) && n == a + b
    ensures 0 <= ShiftLeft(x, b) < Pow2(n)
    decreases b
  {
    if b > 0 {
      ShiftLeftBelow(x, a, b - 1, n - 1);
    }
  }

  /** Below an `a`-bit number shifted left by `b` there is room for any `b`-bit number. */
  lemma {:induction false} ShiftLeftRoom(x: int, lo: int, a: nat, b: nat, n: nat)
    requires 0 <= x < Pow2(a) && 0 <= lo < Pow2(b) && n == a + b
    ensures 0 <= ShiftLeft(x, b) + lo < Pow2(n)
    decreases b
  {
    if b > 0 {
      ShiftLeftRoom(x, lo / 2, a, b - 1, n - 1);
    }
  }

  /** Shifting an `n = a + b`-bit number right by `b` leaves `a` bits. */
  lemma {:induction false} ShiftRightBelow(x: int, a: nat, b: nat, n: nat)
    requires 0 <= x < Pow2(n) && n == a + b
    ensures 0 <= ShiftRight(x, b) < Pow2(a)
    decreases b
  {
    if b > 0 {
      ShiftRightBelow(x, a + 1, b - 1, n);
      assert Pow2(a + 1) == 2 * Pow2(a);
    }
  }

  /** The low `k` bits are a `k`-bit number. */
  lemma LowBitsBelow(x: int, k: nat)
    ensures 0 <= LowBits(x, k) < Pow2(k)
  {
    LowBitsIsMod(x, k);
  }

  // ---------------------------------------------------------------------------
  // Java `int` shifts, masks and division

  /** `x << n` on an `int`: Java shifts by `n & 31` and keeps the low 32 bits. */
  function IntShiftLeft(x: Int32, n: int): (r: Int32)
    ensures (r - x * Pow2(n % 32)) % TWO_32 == 0
  {
    Wrap32(x * Pow2(n % 32))
  }

  /** `x >> n` on an `int`: an arithmetic shift by `n & 31`, which rounds down. */
  function IntShiftRight(x: Int32, n: int): (r: Int32)
    ensures Pow2(n % 32) * r <= x < Pow2(n % 32) * (r + 1)
  {
    DivInt32(x, Pow2(n % 32));
    FloorBounds(x, Pow2(n % 32));
    x / Pow2(n % 32)
  }

  /** `x / d` rounds down: `x` lies in the `d`-wide interval it starts. */
  lemma FloorBounds(x: int, d: int)
    requires d >= 1
    ensures d * (x / d) <= x < d * (x / d + 1)
  {
  }

  lemma DivInt32(x: Int32, d: nat)
    requires d >= 1
    ensures -TWO_31 <= x / d < TWO_31
  {
    if x >= 0 {
      DivAtMost(x, d);
    } else {
      DivAtLeast(x, d);
    }
  }

  /** Rounding down a negative number by a positive divisor never goes below it. */
  lemma DivAtLeast(x: int, d: nat)
    requires x < 0 && d >= 1
    ensures x <= x / d < 0
  {
    var y := -x - 1;
    DivAtMost(y, d);
    DivModUnique(x, d, -(y / d) - 1, d - 1 - y % d);
  }

  /** Java's `/` on `int`s with a positive divisor: it rounds toward zero. */
  function IntDiv(a: int, b: int): (q: int)
    requires b > 0
    ensures a >= 0 ==> q == a / b
    ensures a < 0 ==> q <= 0 && (q < 0 <==> a <= -b)
    ensures a < 0 ==> a <= b * q < a + b
  {
    if a >= 0 then a / b
    else
      FloorBounds(-a, b);
      -((-a) / b)
  }

  /** Java's `&` on two non-negative bit patterns. */
  function BitAnd(a: nat, b: nat): (r: nat)
    ensures r <= b
    decreases a
  {
    if a == 0 || b == 0 then 0
    else 2 * BitAnd(a / 2, b / 2) + (if a % 2 == 1 && b % 2 == 1 then 1 else 0)
  }

  /** `x & mask` on an `int` with a non-negative `mask`: the bit pattern of `x` masked. */
  function IntAnd(x: Int32, mask: Int32): (r: Int32)
    requires mask >= 0
    ensures 0 <= r <= mask
  {
    BitAnd(x % TWO_32, mask)
  }

  /** A mask of `j` low ones keeps the low `j` bits. */
  lemma {:induction false} BitAndLowMask(a: nat, j: nat)
    ensures BitAnd(a, Pow2(j) - 1) == a % Pow2(j)
    decreases j
  {
    if j == 0 {
      assert Pow2(j) - 1 == 0;
    } else if a == 0 {
      assert BitAnd(a, Pow2(j) - 1) == 0;
    } else {
      BitAndStep(a, j);
      BitAndLowMask(a / 2, j - 1);
      ModStep(a, j);
    }
  }

  /** One step of `&` against a mask of low ones: the low bit, then the rest. */
  lemma BitAndStep(a: nat, j: nat)
    requires a > 0 && j > 0
    ensures BitAnd(a, Pow2(j) - 1) == 2 * BitAnd(a / 2, Pow2(j - 1) - 1) + a % 2
  {
    var b := Pow2(j) - 1;
    assert b == 2 * Pow2(j - 1) - 1;
    assert b / 2 == Pow2(j - 1) - 1 && b % 2 == 1;
  }

  lemma ModStep(a: nat, j: nat)
    requires j > 0
    ensures a % Pow2(j) == (a / 2) % Pow2(j - 1) * 2 + a % 2
  {
    assert Pow2(j) == 2 * Pow2(j - 1);
    DivModMul(a, 2, Pow2(j - 1));
  }

  /** On an `int`, `x & (2^j - 1)` is `x mod 2^j` for every `j <= 31`. */
  lemma IntAndLowMask(x: Int32, j: nat)
    requires j <= 31
    ensures Pow2(j) - 1 < TWO_31
    ensures IntAnd(x, Pow2(j) - 1) == x % Pow2(j)
  {
    Pow2Of32();
    Pow2Monotone(j, 31);
    Pow2Add(j, 32 - j);
    BitAndLowMask(x % TWO_32, j);
    ModOfMod(x, Pow2(j), Pow2(32 - j));
  }

  lemma ModOfMod(x: int, a: nat, b: nat)
    requires a > 0 && b > 0
    ensures (x % (a * b)) % a == x % a
  {
    DivModMul(x, a, b);
    var u := (x / a) % b;
    DivModUnique(x % (a * b), a, u, x % a);
  }

  /** Wrapping to 32 bits keeps the low five bits, the ones a shift count uses. */
  lemma Wrap32Mod32(x: int)
    ensures Wrap32(x) % 32 == x % 32
  {
    var t := (x + TWO_31) / TWO_32;
    assert Wrap32(x) == x - TWO_32 * t;
    DivModUnique(Wrap32(x), 32, x / 32 - 0x800_0000 * t, x % 32);
  }

  /** `1 << n`: `2^(n & 31)`, except that `1 << 31` is the most negative `int`. */
  lemma OneShiftedLeft(n: int)
    ensures n % 32 <= 30 ==> IntShiftLeft(1, n) == Pow2(n % 32)
    ensures n % 32 == 31 ==> IntShiftLeft(1, n) == -TWO_31
  {
    var k := n % 32;
    Pow2Of32();
    if k <= 30 {
      Pow2Monotone(k, 30);
      assert Pow2(31) == 2 * Pow2(30);
    }
  }
}
