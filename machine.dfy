/**
 * Machine-level conventions shared by every module of the kernel model:
 * fixed-width unsigned arithmetic, the higher-half direct-map base and the
 * outcome of an operation that the kernel may abandon by spinning forever.
 */
module Machine {

  /** `Hang` stands for the kernel's `for(;;)` panic loops: the call never returns. */
  datatype Outcome<T> = Ok(value: T) | Hang

  datatype Option<T> = None | Some(value: T)

  const U8Modulus: nat := 0x100
  const U16Modulus: nat := 0x1_0000
  const U32Modulus: nat := 0x1_0000_0000
  const U64Modulus: nat := 0x1_0000_0000_0000_0000

  /** Base of the higher-half mapping of all physical memory (cpu.h). */
  const PagingBase: nat := 0xffff_8000_0000_0000

  /** Process id of the kernel itself (types.h). */
  const KernelPID: nat := 0

  predicate IsU8(x: int) { 0 <= x < U8Modulus }
  predicate IsU16(x: int) { 0 <= x < U16Modulus }
  predicate IsU32(x: int) { 0 <= x < U32Modulus }
  predicate IsU64(x: int) { 0 <= x < U64Modulus }

  /** The value an unsigned 64-bit register holds after computing `x`. */
  function WrapU64(x: int): (r: nat)
    ensures IsU64(r)
    ensures (x - r) % U64Modulus == 0
    ensures IsU64(x) ==> r == x
  {
    x % U64Modulus
  }

  /** The value an unsigned 32-bit register holds after computing `x`. */
  function WrapU32(x: int): (r: nat)
    ensures IsU32(r)
    ensures (x - r) % U32Modulus == 0
    ensures IsU32(x) ==> r == x
  {
    x % U32Modulus
  }

  /** Two to the power `p`: the weight of bit `p`. */
  function Pow2(p: nat): (r: nat)
    ensures r >= 1
  {
    if p == 0 then 1 else 2 * Pow2(p - 1)
  }

  /** Bit `p` of `x` is set (`x & (1 << p)` is non-zero). */
  predicate BitSet(x: nat, p: nat)
  {
    x / Pow2(p) % 2 == 1
  }

  type Byte = x: nat | x < 0x100

  /**
   * Physical memory as the firmware leaves it, byte by byte; the kernel
   * reaches address `a` through the direct map at `PagingBase + a`.
   */
  type Bytes = seq<Byte>

  /** The little-endian unsigned integer of `width` bytes at `at`. */
  function LoadLE(m: Bytes, at: nat, width: nat): nat
    requires at + width <= |m|
    decreases width
  {
    if width == 0 then 0 else m[at] + 0x100 * LoadLE(m, at + 1, width - 1)
  }

  /** 256 to the power `width`: one more than the largest `width`-byte number. */
  function ByteRange(width: nat): (r: nat)
    ensures r >= 1
  {
    if width == 0 then 1 else 0x100 * ByteRange(width - 1)
  }

  /** A `width`-byte load is below 256 to the power `width`. */
  lemma {:induction false} LoadLEBelow(m: Bytes, at: nat, width: nat)
    requires at + width <= |m|
    ensures LoadLE(m, at, width) < ByteRange(width)
    decreases width
  {
    if width > 0 {
      LoadLEBelow(m, at + 1, width - 1);
    }
  }

  /** A store outside the bytes a load reads does not change what it reads. */
  lemma {:induction false} LoadLEFrame(m: Bytes, at: nat, width: nat, k: nat, b: Byte)
    requires at + width <= |m| && k < |m| && !(at <= k < at + width)
    ensures LoadLE(m[k := b], at, width) == LoadLE(m, at, width)
    decreases width
  {
    if width > 0 {
      LoadLEFrame(m, at + 1, width - 1, k, b);
    }
  }

  /** Adding in two steps with wrap-around is the same as wrapping the sum once. */
  lemma WrapU64Add(x: int, y: int)
    ensures WrapU64(WrapU64(x) + y) == WrapU64(x + y)
  {
    var q := x / U64Modulus;
    assert x == q * U64Modulus + WrapU64(x);
    var s := x + y;
    assert WrapU64(x) + y == s - q * U64Modulus;
    var d := s / U64Modulus;
    var r := s % U64Modulus;
    assert s - q * U64Modulus == (d - q) * U64Modulus + r;
  }

  /** Multiplication by a natural number is monotone. */
  lemma MulLeft(a: nat, b: nat, d: nat)
    requires a <= b
    ensures a * d <= b * d
  {
  }

  /** A representation of n as q*d + r is the one division gives. */
  lemma DivModUnique(n: nat, d: nat, q: nat, r: nat)
    requires 0 <= r < d && n == q * d + r
    ensures n / d == q && n % d == r
  {
    var q' := n / d;
    if q' < q {
      MulLeft(q' + 1, q, d);
    } else if q < q' {
      MulLeft(q + 1, q', d);
    }
  }
  /** `x` in the mixed radix `a`, `b`: its digit below `a`, the next digit below `b`, and the rest. */
  lemma TwoDigits(x: nat, a: nat, b: nat)
    requires a > 0 && b > 0
    ensures x == (a * b) * (x / a / b) + (x / a % b * a + x % a)
    ensures x / a % b * a + x % a < a * b
  {
    var y, t := x / a, x % a;
    var q, s := y / b, y % b;
    assert x == a * y + t;
    assert y == b * q + s;
    Distribute(a, b, q, s);
    MulLeft(s + 1, b, a);
  }

  /** `a * (b * q + s)` written out. */
  lemma Distribute(a: int, b: int, q: int, s: int)
    ensures a * (b * q + s) == (a * b) * q + s * a
  {
  }

  /** Dividing by a product is dividing by each factor in turn. */
  lemma DivDiv(x: nat, a: nat, b: nat)
    requires a > 0 && b > 0
    ensures x / (a * b) == x / a / b
  {
    TwoDigits(x, a, b);
    DivModUnique(x, a * b, x / a / b, x / a % b * a + x % a);
  }

  /** The remainder modulo `a * b` splits into the remainder modulo `a` and the next digit. */
  lemma ModMul(x: nat, a: nat, b: nat)
    requires a > 0 && b > 0
    ensures x % (a * b) == x % a + a * (x / a % b)
  {
    TwoDigits(x, a, b);
    DivModUnique(x, a * b, x / a / b, x / a % b * a + x % a);
  }

  /** Bytes that are the base-256 digits of `x` from digit `at` on load as those digits of `x`. */
  lemma {:induction false} LoadLEDigits(m: Bytes, x: nat, at: nat, width: nat)
    requires at + width <= |m|
    requires forall k :: at <= k < at + width ==> m[k] == x / ByteRange(k) % 0x100
    ensures LoadLE(m, at, width) == x / ByteRange(at) % ByteRange(width)
    decreases width
  {
    if width > 0 {
      LoadLEDigits(m, x, at + 1, width - 1);
      var d, r := ByteRange(at), ByteRange(width - 1);
      var lo, rest := m[at], LoadLE(m, at + 1, width - 1);
      assert ByteRange(at + 1) == d * 0x100;
      assert lo == x / d % 0x100;
      assert rest == x / (d * 0x100) % r;
      DigitSplit(x, d, r);
      calc {
        LoadLE(m, at, width);
        lo + 0x100 * rest;
        x / d % (0x100 * r);
        { assert ByteRange(width) == 0x100 * r; }
        x / ByteRange(at) % ByteRange(width);
      }
    }
  }

  /** The digits of `x / d` below `256 * r`: the lowest one, then those of `x / (256 * d)` below `r`. */
  lemma DigitSplit(x: nat, d: nat, r: nat)
    requires d >= 1 && r >= 1
    ensures x / d % (0x100 * r) == x / d % 0x100 + 0x100 * (x / (d * 0x100) % r)
  {
    DivDiv(x, d, 0x100);
    var y: nat := x / d;
    ModMul(y, 0x100, r);
  }
}
