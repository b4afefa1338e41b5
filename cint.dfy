/** Fixed-width unsigned integers of the C source, as bounded naturals.
    Unsigned arithmetic wraps modulo 2^32; the helpers below write that out. */
module CInt {

  const Two32: nat := 0x1_0000_0000

  /** A 1-bit bit-field. */
  type Bit = x: nat | x < 2
  /** A 2-bit bit-field. */
  type U2 = x: nat | x < 4
  type U8 = x: nat | x < 0x100
  type U16 = x: nat | x < 0x1_0000
  type U32 = x: nat | x < 0x1_0000_0000

  datatype Option<+T> = None | Some(value: T)

  /** `a + b` on `unsigned int`. */
  function Add32(a: U32, b: U32): U32 { (a + b) % Two32 }

  /** `a - b` on `unsigned int` (Dafny's `%` is never negative, as unsigned wrap needs). */
  function Sub32(a: U32, b: U32): U32 { (a - b) % Two32 }

  /** `a * b` on `unsigned int`. */
  function Mul32(a: U32, b: U32): U32 { (a * b) % Two32 }

  /** Assigning an 8-bit value to a 1-bit bit-field keeps its low bit. */
  function ToBit(x: U8): Bit { x % 2 }

  /** Assigning an 8-bit value to a 2-bit bit-field keeps its two low bits. */
  function ToU2(x: U8): U2 { x % 4 }

  /** Adding to a wrapped value is the wrap of the exact sum. */
  lemma ModAdd(x: int, y: int)
    ensures (x % Two32 + y) % Two32 == (x + y) % Two32
  {
    var q := x / Two32;
    assert x == Two32 * q + x % Two32;
    assert x + y == (x % Two32 + y) + Two32 * q;
    ModShift(x % Two32 + y, q);
  }

  lemma ModShift(z: int, q: int)
    ensures (z + Two32 * q) % Two32 == z % Two32
  {
    var r := z % Two32;
    var k := z / Two32;
    assert z == Two32 * k + r;
    assert z + Two32 * q == Two32 * (k + q) + r;
    DivUnique(z + Two32 * q, Two32, k + q, r);
  }

  /** Division with remainder is unique. */
  lemma DivUnique(a: int, d: int, x: int, y: int)
    requires d > 0 && 0 <= y < d && a == d * x + y
    ensures a / d == x && a % d == y
  {
    var q, r := a / d, a % d;
    assert a == d * q + r;
    if q > x {
      assert d * q >= d * (x + 1) by { MulMono(d, x + 1, q); }
      assert false;
    } else if q < x {
      assert d * x >= d * (q + 1) by { MulMono(d, q + 1, x); }
      assert false;
    }
  }

  lemma MulMono(d: int, a: int, b: int)
    requires d >= 0 && a <= b
    ensures d * a <= d * b
  {
    assert d * b - d * a == d * (b - a);
  }
}
