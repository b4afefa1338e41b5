/** The bit helpers of packet_analyzer.c (repeated verbatim in airtime_cal.c):
    `get_sub_value` isolates the bits of a mask and shifts them down,
    `get_bit` reads one bit. The C operators `&`, `|`, `<<` and `>>` on unsigned
    values are defined on naturals, least significant bit first. */
module Bits {
  import opened CInt

  /** `m << k`, without truncation. */
  function Shl(m: nat, k: nat): nat
  {
    if k == 0 then m else 2 * Shl(m, k - 1)
  }

  /** `x >> k`. */
  function Shr(x: nat, k: nat): nat
  {
    if k == 0 then x else Shr(x / 2, k - 1)
  }

  /** `x & y`. */
  function And(a: nat, b: nat): nat
  {
    if a == 0 || b == 0 then 0
    else 2 * And(a / 2, b / 2) + (if a % 2 == 1 && b % 2 == 1 then 1 else 0)
  }

  /** `x | y`. */
  function Or(a: nat, b: nat): nat
    decreases a + b
  {
    if a == 0 then b
    else if b == 0 then a
    else 2 * Or(a / 2, b / 2) + (if a % 2 == 1 || b % 2 == 1 then 1 else 0)
  }

  /** Bit k of x, counted from the least significant bit. */
  function BitAt(x: nat, k: nat): Bit
  {
    Shr(x, k) % 2
  }

  /** Shift x right while its lowest bit is clear (x is left alone when 0). */
  function StripTrailingZeros(x: nat): nat
  {
    if x == 0 || x % 2 == 1 then x else StripTrailingZeros(x / 2)
  }

  function TrailingZeros(x: nat): nat
    requires x > 0
  {
    if x % 2 == 1 then 0 else 1 + TrailingZeros(x / 2)
  }

  /** `get_sub_value`: the masked bits shifted down by their own trailing zeros,
      returned through a `u_int8_t`. */
  function SubValue(value: U32, mask: U32): U8
  {
    StripTrailingZeros(And(value, mask)) % 0x100
  }

  /** `get_sub_value`, as the source computes it: a loop shifting a local. */
  method GetSubValue(value: U32, mask: U32) returns (r: U8)
    ensures r == SubValue(value, mask)
  {
    var res := And(value, mask);
    if res == 0 {
      return 0;
    }
    while res % 2 == 0
      invariant res > 0
      invariant StripTrailingZeros(res) == StripTrailingZeros(And(value, mask))
      decreases res
    {
      res := res / 2;
    }
    r := res % 0x100;
  }

  /** `get_bit`: `(value & (1 << bit)) >> bit`; the shift is defined in C for bit < 32. */
  function GetBit(value: U32, bit: U8): (r: U8)
    requires bit < 32
    ensures r == BitAt(value, bit)
  {
    AndSingleBit(value, bit);
    ShrShl(BitAt(value, bit), bit);
    Shr(And(value, Shl(1, bit)), bit)
  }

  /** `(x | 3) + 1` on `unsigned int`. */
  function Pad(x: U32): U32
  {
    OrThree(x);
    (Or(x, 3) + 1) % Two32
  }

  // ---------------------------------------------------------------------------
  // Properties of get_sub_value and get_bit

  /** The result is zero exactly when the masked value is. */
  lemma SubValueZeroIff(value: U32, mask: U32)
    ensures SubValue(value, mask) == 0 <==> And(value, mask) == 0
  {
    if And(value, mask) != 0 {
      SubValueShape(value, mask);
    }
  }

  /** A non-zero masked value is shifted down by ITS OWN trailing zeros (not the
      mask's): the shifted value is odd and shifting it back gives the masked value;
      the 8-bit result keeps its low bit, so it is odd too. */
  lemma SubValueShape(value: U32, mask: U32)
    requires And(value, mask) != 0
    ensures var m := And(value, mask);
      StripTrailingZeros(m) % 2 == 1 &&
      Shl(StripTrailingZeros(m), TrailingZeros(m)) == m &&
      SubValue(value, mask) % 2 == 1
  {
    var m := And(value, mask);
    StripOdd(m);
    StripTimes(m);
    LowBitKept(StripTrailingZeros(m));
  }

  /** Truncating to 8 bits keeps the low bit. */
  lemma LowBitKept(x: nat)
    ensures (x % 0x100) % 2 == x % 2
  {
    var q := x / 0x100;
    assert x == 2 * (0x80 * q) + x % 0x100;
  }

  lemma {:induction false} StripOdd(x: nat)
    requires x > 0
    ensures StripTrailingZeros(x) % 2 == 1
  {
    if x % 2 == 0 {
      StripOdd(x / 2);
    }
  }

  lemma {:induction false} StripTimes(x: nat)
    requires x > 0
    ensures Shl(StripTrailingZeros(x), TrailingZeros(x)) == x
  {
    if x % 2 == 0 {
      StripTimes(x / 2);
      ShlSucc(StripTrailingZeros(x / 2), TrailingZeros(x / 2));
    }
  }

  /** One more left shift doubles the result. */
  lemma ShlSucc(m: nat, k: nat)
    ensures Shl(m, k + 1) == 2 * Shl(m, k)
  {
  }

  /** Shifting in zeros and out again gives the value back. */
  lemma {:induction false} ShrShl(m: nat, k: nat)
    ensures Shr(Shl(m, k), k) == m
  {
    if k > 0 {
      ShrShl(m, k - 1);
    }
  }

  /** For a one-bit mask `1 << k` the result is bit k of the value, 0 or 1. */
  lemma SubValueSingleBit(value: U32, mask: U32, k: nat)
    requires mask == Shl(1, k)
    ensures SubValue(value, mask) == BitAt(value, k)
  {
    AndSingleBit(value, k);
    if BitAt(value, k) == 1 {
      StripShl(1, k);
    } else {
      ShlZero(k);
    }
  }

  lemma {:induction false} ShlZero(k: nat)
    ensures Shl(0, k) == 0
  {
    if k > 0 { ShlZero(k - 1); }
  }

  /** Leading zero bits of the mask do not matter to get_sub_value. */
  lemma {:induction false} StripShl(y: nat, k: nat)
    ensures StripTrailingZeros(Shl(y, k)) == StripTrailingZeros(y)
  {
    if k > 0 {
      StripShl(y, k - 1);
      if y == 0 {
        ShlZero(k - 1);
      } else {
        ShlPos(y, k - 1);
      }
    }
  }

  lemma {:induction false} ShlPos(y: nat, k: nat)
    requires y > 0
    ensures Shl(y, k) > 0
  {
    if k > 0 { ShlPos(y, k - 1); }
  }

  /** AND with `1 << k` keeps exactly bit k, in place. */
  lemma AndSingleBit(x: nat, k: nat)
    ensures And(x, Shl(1, k)) == Shl(BitAt(x, k), k)
  {
    AndShifted(x, k, 1);
    assert And(Shr(x, k), 1) == Shr(x, k) % 2;
  }

  /** AND with an even mask: the low bit is clear. */
  lemma AndEven(x: nat, n: nat)
    ensures And(x, 2 * n) == 2 * And(x / 2, n)
  {
    if x > 0 && n > 0 {
      assert (2 * n) / 2 == n && (2 * n) % 2 == 0;
    }
  }

  /** AND with `m << k` is the AND of `x >> k` with m, shifted back up. */
  lemma {:induction false} AndShifted(x: nat, k: nat, m: nat)
    ensures And(x, Shl(m, k)) == Shl(And(Shr(x, k), m), k)
  {
    if k > 0 {
      AndShifted(x / 2, k - 1, m);
      AndEven(x, Shl(m, k - 1));
    }
  }

  /** A two-bit field at bit offset k (mask `3 << k`) reads 0, 1, 1, 3 for the
      field values 0, 1, 2, 3: the value 2 is shifted down to 1. */
  lemma SubValueTwoBitField(value: U32, mask: U32, k: nat)
    requires mask == Shl(3, k)
    ensures SubValue(value, mask) == [0, 1, 1, 3][Shr(value, k) % 4]
  {
    var y := Shr(value, k);
    AndShifted(value, k, 3);
    AndThree(y);
    StripShl(y % 4, k);
    StripTwoBits(y % 4);
  }

  lemma StripTwoBits(r: nat)
    requires r < 4
    ensures StripTrailingZeros(r) % 0x100 == [0, 1, 1, 3][r]
  {
    if r == 2 {
      assert StripTrailingZeros(1) == 1;
    }
  }

  /** `x & 3` keeps the two low bits. */
  lemma AndThree(x: nat)
    ensures And(x, 3) == x % 4
  {
    if x > 0 {
      assert And(x / 2, 1) == (x / 2) % 2;
    }
  }

  /** `(x | 3) + 1` is the smallest multiple of 4 strictly above x; it adds 1 to 4.
      Only for the top four 32-bit values does it wrap to 0. */
  lemma PadIsNextMultipleOfFour(x: U32)
    ensures x < Two32 - 4 ==> Pad(x) % 4 == 0 && x < Pad(x) <= x + 4
    ensures x >= Two32 - 4 ==> Pad(x) == 0
  {
    OrThree(x);
  }

  lemma OrThree(x: nat)
    ensures Or(x, 3) == x - x % 4 + 3
  {
    if x >= 2 {
      assert Or(x / 2, 1) == 2 * (x / 4) + 1;
    }
  }
}
