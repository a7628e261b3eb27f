/** Bit-manipulation, alignment and min/max helpers of the kernel's
    basic type header, on the 32-bit `uint32_t` / `size_t` of the i386 target.
    Bit-vector arithmetic wraps modulo 2^32 exactly as the C unsigned
    arithmetic does. */
module Types {

  import opened Arith

  /** `size_t` is a 32-bit unsigned integer on this target. */
  const SizeModulus: int := 0x1_0000_0000

  /** Conversion of a C integer value to `size_t`: reduction modulo 2^32. */
  function ToSize(x: int): (r: int)
    ensures 0 <= r < SizeModulus
    ensures (r - x) % SizeModulus == 0
  {
    x % SizeModulus
  }

  /** `SIZE_MAX` is `(size_t)-1`: the largest `size_t`. */
  function SizeMax(): (r: int)
    ensures r == SizeModulus - 1
  {
    ToSize(-1)
  }

  /** A power of two is a non-zero value with a single bit set. */
  predicate IsPowerOfTwo(a: bv32) {
    a != 0 && a & (a - 1) == 0
  }

  /** `BIT(n)`: `1U << n`; C defines the shift only for counts below 32, so
      the count is a 5-bit value. The result is a power of two whose set bit
      is bit `n`. */
  function Bit(n: bv5): (r: bv32)
    ensures IsPowerOfTwo(r)
    ensures (r >> n) & 1 == 1
  {
    (1 as bv32) << n
  }

  /** `CHECK_BIT(x, n)`: bit `n` of `x` is set. Since `BIT(n)` has a
      single bit, the macro's non-zero test means that all of `BIT(n)` is
      present in `x`. */
  function CheckBit(x: bv32, n: bv5): (r: bool)
    ensures r <==> x & Bit(n) == Bit(n)
  {
    x & Bit(n) != 0
  }

  /** `SET_BIT(x, n)`: the value `x` holds after `x |= BIT(n)`. */
  function SetBit(x: bv32, n: bv5): (r: bv32)
    ensures CheckBit(r, n)
    ensures r & !Bit(n) == x & !Bit(n)
  {
    x | Bit(n)
  }

  /** `CLEAR_BIT(x, n)`: the value `x` holds after `x &= ~BIT(n)`. */
  function ClearBit(x: bv32, n: bv5): (r: bv32)
    ensures !CheckBit(r, n)
    ensures r & !Bit(n) == x & !Bit(n)
  {
    x & !Bit(n)
  }

  /** `TOGGLE_BIT(x, n)`: the value `x` holds after `x ^= BIT(n)`. */
  function ToggleBit(x: bv32, n: bv5): (r: bv32)
    ensures CheckBit(r, n) <==> !CheckBit(x, n)
    ensures r & !Bit(n) == x & !Bit(n)
  {
    x ^ Bit(n)
  }

  /** Toggling the same bit twice restores the original value. */
  lemma ToggleTwice(x: bv32, n: bv5)
    ensures ToggleBit(ToggleBit(x, n), n) == x
  {
    var b := Bit(n);
    assert (x ^ b) ^ b == x;
  }

  /** Setting, then clearing a bit gives the same value as clearing it alone. */
  lemma ClearAfterSet(x: bv32, n: bv5)
    ensures ClearBit(SetBit(x, n), n) == ClearBit(x, n)
  {
    var b := Bit(n);
    assert (x | b) & !b == x & !b;
  }

  /** `IS_ALIGNED(x, a)`: `(x & (a - 1)) == 0`; it holds exactly when
      aligning `x` down leaves it where it is. */
  function IsAligned(x: bv32, a: bv32): (r: bool)
    ensures r <==> AlignDown(x, a) == x
  {
    x & (a - 1) == 0
  }

  /** `ALIGN_DOWN(x, a)`: `x & ~(a - 1)`. It drops the bits of `x` under
      the mask `a - 1`, so the result has none of them and is at most `x`. */
  function AlignDown(x: bv32, a: bv32): (r: bv32)
    ensures r & (a - 1) == 0 && r <= x
    ensures x - r == x & (a - 1)
  {
    x & !(a - 1)
  }

  /** `ALIGN_UP(x, a)`: `(x + a - 1) & ~(a - 1)`, in wrapping 32-bit
      arithmetic: `x + a - 1` aligned down. */
  function AlignUp(x: bv32, a: bv32): (r: bv32)
    ensures r == AlignDown(x + (a - 1), a)
    ensures r & (a - 1) == 0
  {
    (x + (a - 1)) & !(a - 1)
  }

  /** For a power-of-two alignment, `ALIGN_DOWN` gives the greatest aligned
      value not above `x`: it is aligned, at most `x`, and less than `a`
      below it. */
  lemma AlignDownRounds(x: bv32, a: bv32)
    requires IsPowerOfTwo(a)
    ensures IsAligned(AlignDown(x, a), a)
    ensures (AlignDown(x, a) as int) % (a as int) == 0
    ensures AlignDown(x, a) <= x
    ensures x - AlignDown(x, a) < a
  {
    AlignedIffMultiple(AlignDown(x, a), a);
  }

  /** For a power-of-two alignment and an `x` for which `x + a - 1` does not
      wrap, `ALIGN_UP` gives the least aligned value not below `x`: a
      multiple of `a`, at least `x` and less than `a` above it. */
  lemma AlignUpRounds(x: bv32, a: bv32)
    requires IsPowerOfTwo(a)
    requires x <= 0xFFFF_FFFF - (a - 1)
    ensures IsAligned(AlignUp(x, a), a)
    ensures (AlignUp(x, a) as int) % (a as int) == 0
    ensures x <= AlignUp(x, a)
    ensures AlignUp(x, a) - x < a
  {
    AlignedIffMultiple(AlignUp(x, a), a);
  }

  /** When `x + a - 1` wraps past 2^32, `ALIGN_UP` yields 0. */
  lemma AlignUpWraps(x: bv32, a: bv32)
    requires IsPowerOfTwo(a)
    requires x > 0xFFFF_FFFF - (a - 1)
    ensures AlignUp(x, a) == 0
  {
  }

  /** Both aligning macros leave an aligned value where it is. */
  lemma AlignUpIdentity(x: bv32, a: bv32)
    requires IsPowerOfTwo(a)
    requires IsAligned(x, a)
    ensures AlignUp(x, a) == x
  {
  }

  /** For a power-of-two `a`, the macros' bit test `x & (a - 1) == 0` means
      that `x` is a multiple of `a`. */
  lemma AlignedIffMultiple(x: bv32, a: bv32)
    requires IsPowerOfTwo(a)
    ensures IsAligned(x, a) <==> (x as int) % (a as int) == 0
  {
    MaskIffMultiple(x, a);
  }

  /** The mask form of `AlignedIffMultiple`, by halving `a` and `x`
      together: `x` is a multiple of `2b` exactly when it is even and
      `x / 2` is a multiple of `b`. */
  lemma {:induction false} MaskIffMultiple(x: bv32, a: bv32)
    requires IsPowerOfTwo(a)
    ensures x & (a - 1) == 0 <==> (x as int) % (a as int) == 0
    decreases a
  {
    if a == 1 {
      LowBitValue(a);
    } else {
      var y, b := x >> 1, a >> 1;
      HalfPower(a);
      HalfMask(x, a, y, b);
      HalfValue(x);
      EvenValue(a, b);
      PositiveValue(b);
      MaskIffMultiple(y, b);
      MultipleOfHalves(x & (a - 1) == 0, x & 1 == 0, y & (b - 1) == 0,
                       x as int, y as int, (x & 1) as int, a as int, b as int);
    }
  }

  /** The halving step of `MaskIffMultiple` on plain truth values and
      integers: `x = 2y + l` is a multiple of `a = 2b` exactly when the low
      bit `l` is clear and `y` is a multiple of `b`; `xm`, `xl` and `ym`
      stand for the mask test of `x`, its low-bit test and the mask test
      of `y`. */
  lemma MultipleOfHalves(xm: bool, xl: bool, ym: bool, x: int, y: int, l: int, a: int, b: int)
    requires xm <==> xl && ym
    requires y >= 0 && 0 <= l < 2 && x == 2 * y + l && (xl <==> l == 0)
    requires b > 0 && a == 2 * b
    requires ym <==> y % b == 0
    ensures xm <==> x % a == 0
  {
    MultipleOfDouble(y, l, b);
  }

  /** Half of a power of two other than 1 is a smaller power of two, and
      the power itself is even. */
  lemma HalfPower(a: bv32)
    requires IsPowerOfTwo(a) && a != 1
    ensures IsPowerOfTwo(a >> 1) && a >> 1 < a && a & 1 == 0
  {
  }

  /** An even alignment mask splits into the lowest bit and the rest. */
  lemma HalfMask(x: bv32, a: bv32, y: bv32, b: bv32)
    requires a & 1 == 0 && y == x >> 1 && b == a >> 1
    ensures x & (a - 1) == 0 <==> x & 1 == 0 && y & (b - 1) == 0
  {
    MaskSplit(x, a, y, b);
    TopBitClear(y, b - 1);
    ShiftOrZero(y & (b - 1), x & 1);
  }

  lemma MaskSplit(x: bv32, a: bv32, y: bv32, b: bv32)
    requires a & 1 == 0 && y == x >> 1 && b == a >> 1
    ensures x & (a - 1) == ((y & (b - 1)) << 1) | (x & 1)
  {
  }

  lemma TopBitClear(y: bv32, c: bv32)
    requires y < 0x8000_0000
    ensures y & c < 0x8000_0000
  {
  }

  lemma ShiftOrZero(z: bv32, w: bv32)
    requires z < 0x8000_0000 && w < 2
    ensures (z << 1) | w == 0 <==> z == 0 && w == 0
  {
  }

  /** The value of a 32-bit word is twice the value of its upper 31 bits
      plus its lowest bit. */
  lemma HalfValue(x: bv32)
    ensures x as int == 2 * ((x >> 1) as int) + (x & 1) as int
    ensures (x & 1) as int < 2 && (x & 1 == 0 <==> (x & 1) as int == 0)
  {
    LowBitValue(x & 1);
    if x & 1 == 0 {
      EvenValue(x, x >> 1);
    } else {
      OddValue(x, x >> 1);
    }
  }

  lemma LowBitValue(b: bv32)
    requires b == 0 || b == 1
    ensures b as int == if b == 0 then 0 else 1
  {
  }

  lemma PositiveValue(b: bv32)
    requires IsPowerOfTwo(b)
    ensures b as int > 0
  {
    HalfValue(b);
    if b & 1 == 0 {
      assert b >> 1 != 0;
      PositiveValue(b >> 1);
    }
  }

  lemma EvenValue(x: bv32, y: bv32)
    requires x & 1 == 0 && y == x >> 1
    ensures x as int == 2 * y as int
  {
    assert y < 0x8000_0000 && x == y << 1;
    ShiftValue(y);
  }

  lemma OddValue(x: bv32, y: bv32)
    requires x & 1 != 0 && y == x >> 1
    ensures x as int == 2 * y as int + 1
  {
    assert y < 0x8000_0000 && x == (y << 1) | 1;
    ShiftOneValue(y);
  }

  lemma ShiftValue(y: bv32)
    requires y < 0x8000_0000
    ensures (y << 1) as int == 2 * y as int
  {
  }

  lemma ShiftOneValue(y: bv32)
    requires y < 0x8000_0000
    ensures ((y << 1) | 1) as int == 2 * y as int + 1
  {
  }

  /** `2q + r`, with `r` a bit, is a multiple of `2b` exactly when `r` is
      0 and `q` is a multiple of `b`. */
  lemma MultipleOfDouble(q: nat, r: nat, b: nat)
    requires b > 0 && r < 2
    ensures (2 * q + r) % (2 * b) == 0 <==> r == 0 && q % b == 0
  {
    var v, m := 2 * q + r, 2 * b;
    DivMod(v, m);
    DivMod(q, b);
    if v % m == 0 {
      var k := v / m;
      assert 2 * q + r == 2 * (b * k);
      assert r == 0;
      DivUnique(q, b, k, 0);
    }
    if r == 0 && q % b == 0 {
      var k := q / b;
      assert v == m * k;
      DivUnique(v, m, k, 0);
    }
  }

  /** `MIN(a, b)`. */
  function Min(a: int, b: int): (r: int)
    ensures r == a || r == b
    ensures r <= a && r <= b
  {
    if a < b then a else b
  }

  /** `MAX(a, b)`. */
  function Max(a: int, b: int): (r: int)
    ensures r == a || r == b
    ensures r >= a && r >= b
  {
    if a > b then a else b
  }
}
