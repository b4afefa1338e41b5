/** endian_converter.c: byte swaps of 16-, 32- and 64-bit words, and the
    conversions from little- or big-endian data to the host's order. The host's
    order (`is_little_endian`, which inspects the first byte of an `int`) is a
    parameter of the model. */
module Endian {

  datatype Endianness = LittleEndian | BigEndian

  /** Byte k (0 = least significant) of a word. */
  function Byte16(x: bv16, k: bv16): bv8
    requires k < 2
  {
    ((x >> (8 * k)) & 0xff) as bv8
  }

  function Byte32(x: bv32, k: bv32): bv8
    requires k < 4
  {
    ((x >> (8 * k)) & 0xff) as bv8
  }

  function Byte64(x: bv64, k: bv64): bv8
    requires k < 8
  {
    ((x >> (8 * k)) & 0xff) as bv8
  }

  /** `swap_endian_16`. */
  function Swap16(value: bv16): bv16
  {
    ((value & 0x00ff) << 8) | ((value & 0xff00) >> 8)
  }

  /** `swap_endian_32`. */
  function Swap32(value: bv32): bv32
  {
    ((value & 0x0000_00ff) << 24) | ((value & 0x0000_ff00) << 8)
    | ((value & 0x00ff_0000) >> 8) | ((value & 0xff00_0000) >> 24)
  }

  /** `swap_endian_64`. */
  function Swap64(value: bv64): bv64
  {
    ((value & 0x0000_0000_0000_00ff) << 56) | ((value & 0x0000_0000_0000_ff00) << 40)
    | ((value & 0x0000_0000_00ff_0000) << 24) | ((value & 0x0000_0000_ff00_0000) << 8)
    | ((value & 0x0000_00ff_0000_0000) >> 8) | ((value & 0x0000_ff00_0000_0000) >> 24)
    | ((value & 0x00ff_0000_0000_0000) >> 40) | ((value & 0xff00_0000_0000_0000) >> 56)
  }

  /** `be2local16`: swap on a little-endian host, identity on a big-endian one. */
  function Be2Local16(host: Endianness, value: bv16): bv16
  {
    if host == LittleEndian then Swap16(value) else value
  }

  /** `le2local16`: identity on a little-endian host, swap on a big-endian one. */
  function Le2Local16(host: Endianness, value: bv16): bv16
  {
    if host == LittleEndian then value else Swap16(value)
  }

  function Be2Local32(host: Endianness, value: bv32): bv32
  {
    if host == LittleEndian then Swap32(value) else value
  }

  function Le2Local32(host: Endianness, value: bv32): bv32
  {
    if host == LittleEndian then value else Swap32(value)
  }

  function Be2Local64(host: Endianness, value: bv64): bv64
  {
    if host == LittleEndian then Swap64(value) else value
  }

  function Le2Local64(host: Endianness, value: bv64): bv64
  {
    if host == LittleEndian then value else Swap64(value)
  }

  // ---------------------------------------------------------------------------
  // Words in memory. A word the host loads from octets o[0], o[1], ... has o[0]
  // as its least significant byte on a little-endian host and as its most
  // significant byte on a big-endian one.

  /** The value of octets read as a little-endian number. */
  function LeValue16(o: seq<bv8>): bv16
    requires |o| == 2
  {
    (o[0] as bv16) | ((o[1] as bv16) << 8)
  }

  function LeValue32(o: seq<bv8>): bv32
    requires |o| == 4
  {
    (o[0] as bv32) | ((o[1] as bv32) << 8) | ((o[2] as bv32) << 16) | ((o[3] as bv32) << 24)
  }

  function LeValue64(o: seq<bv8>): bv64
    requires |o| == 8
  {
    (o[0] as bv64) | ((o[1] as bv64) << 8) | ((o[2] as bv64) << 16) | ((o[3] as bv64) << 24)
    | ((o[4] as bv64) << 32) | ((o[5] as bv64) << 40) | ((o[6] as bv64) << 48) | ((o[7] as bv64) << 56)
  }

  function Reverse(o: seq<bv8>): (r: seq<bv8>)
    ensures |r| == |o| && forall i | 0 <= i < |o| :: r[i] == o[|o| - 1 - i]
  {
    if o == [] then [] else Reverse(o[1..]) + [o[0]]
  }

  /** The word a host of the given order loads from octets. */
  function Load16(host: Endianness, o: seq<bv8>): bv16
    requires |o| == 2
  {
    if host == LittleEndian then LeValue16(o) else LeValue16(Reverse(o))
  }

  function Load32(host: Endianness, o: seq<bv8>): bv32
    requires |o| == 4
  {
    if host == LittleEndian then LeValue32(o) else LeValue32(Reverse(o))
  }

  function Load64(host: Endianness, o: seq<bv8>): bv64
    requires |o| == 8
  {
    if host == LittleEndian then LeValue64(o) else LeValue64(Reverse(o))
  }

  // ---------------------------------------------------------------------------
  // Properties

  /** A word is determined by its bytes. */
  lemma Bytes16Determine(x: bv16, y: bv16)
    requires Byte16(x, 0) == Byte16(y, 0) && Byte16(x, 1) == Byte16(y, 1)
    ensures x == y
  {
  }

  lemma Bytes32Determine(x: bv32, y: bv32)
    requires Byte32(x, 0) == Byte32(y, 0) && Byte32(x, 1) == Byte32(y, 1)
    requires Byte32(x, 2) == Byte32(y, 2) && Byte32(x, 3) == Byte32(y, 3)
    ensures x == y
  {
  }

  lemma Bytes64Determine(x: bv64, y: bv64)
    requires Byte64(x, 0) == Byte64(y, 0) && Byte64(x, 1) == Byte64(y, 1)
    requires Byte64(x, 2) == Byte64(y, 2) && Byte64(x, 3) == Byte64(y, 3)
    requires Byte64(x, 4) == Byte64(y, 4) && Byte64(x, 5) == Byte64(y, 5)
    requires Byte64(x, 6) == Byte64(y, 6) && Byte64(x, 7) == Byte64(y, 7)
    ensures x == y
  {
  }

  /** Swapping moves byte k to byte n-1-k of an n-byte word. */
  lemma Swap16Bytes(x: bv16)
    ensures Byte16(Swap16(x), 0) == Byte16(x, 1)
    ensures Byte16(Swap16(x), 1) == Byte16(x, 0)
  {
  }

  lemma Swap32Bytes(x: bv32)
    ensures Byte32(Swap32(x), 0) == Byte32(x, 3)
    ensures Byte32(Swap32(x), 1) == Byte32(x, 2)
    ensures Byte32(Swap32(x), 2) == Byte32(x, 1)
    ensures Byte32(Swap32(x), 3) == Byte32(x, 0)
  {
  }

  lemma Swap64Bytes(x: bv64)
    ensures Byte64(Swap64(x), 0) == Byte64(x, 7)
    ensures Byte64(Swap64(x), 1) == Byte64(x, 6)
    ensures Byte64(Swap64(x), 2) == Byte64(x, 5)
    ensures Byte64(Swap64(x), 3) == Byte64(x, 4)
    ensures Byte64(Swap64(x), 4) == Byte64(x, 3)
    ensures Byte64(Swap64(x), 5) == Byte64(x, 2)
    ensures Byte64(Swap64(x), 6) == Byte64(x, 1)
    ensures Byte64(Swap64(x), 7) == Byte64(x, 0)
  {
  }

  /** Byte k of the little-endian value of octets is octet k. */
  lemma LeValue16Bytes(o: seq<bv8>)
    requires |o| == 2
    ensures Byte16(LeValue16(o), 0) == o[0]
    ensures Byte16(LeValue16(o), 1) == o[1]
  {
  }

  lemma LeValue32Bytes(o: seq<bv8>)
    requires |o| == 4
    ensures Byte32(LeValue32(o), 0) == o[0]
    ensures Byte32(LeValue32(o), 1) == o[1]
    ensures Byte32(LeValue32(o), 2) == o[2]
    ensures Byte32(LeValue32(o), 3) == o[3]
  {
  }

  lemma LeValue64Bytes(o: seq<bv8>)
    requires |o| == 8
    ensures Byte64(LeValue64(o), 0) == o[0]
    ensures Byte64(LeValue64(o), 1) == o[1]
    ensures Byte64(LeValue64(o), 2) == o[2]
    ensures Byte64(LeValue64(o), 3) == o[3]
    ensures Byte64(LeValue64(o), 4) == o[4]
    ensures Byte64(LeValue64(o), 5) == o[5]
    ensures Byte64(LeValue64(o), 6) == o[6]
    ensures Byte64(LeValue64(o), 7) == o[7]
  {
  }

  /** Swapping twice gives the word back. */
  lemma Swap16Involution(x: bv16)
    ensures Swap16(Swap16(x)) == x
  {
    Swap16Bytes(x);
    Swap16Bytes(Swap16(x));
    Bytes16Determine(Swap16(Swap16(x)), x);
  }

  lemma Swap32Involution(x: bv32)
    ensures Swap32(Swap32(x)) == x
  {
    Swap32Bytes(x);
    Swap32Bytes(Swap32(x));
    Bytes32Determine(Swap32(Swap32(x)), x);
  }

  lemma Swap64Involution(x: bv64)
    ensures Swap64(Swap64(x)) == x
  {
    Swap64Bytes(x);
    Swap64Bytes(Swap64(x));
    Bytes64Determine(Swap64(Swap64(x)), x);
  }

  /** Swapping the little-endian value of octets gives the little-endian value of
      the reversed octets. */
  lemma Swap16Reverses(o: seq<bv8>)
    requires |o| == 2
    ensures Swap16(LeValue16(o)) == LeValue16(Reverse(o))
  {
    var r := Reverse(o);
    assert r[0] == o[1] && r[1] == o[0];
    Swap16Bytes(LeValue16(o));
    LeValue16Bytes(o);
    LeValue16Bytes(r);
    Bytes16Determine(Swap16(LeValue16(o)), LeValue16(r));
  }

  lemma Swap32Reverses(o: seq<bv8>)
    requires |o| == 4
    ensures Swap32(LeValue32(o)) == LeValue32(Reverse(o))
  {
    var r := Reverse(o);
    assert r[0] == o[3] && r[1] == o[2] && r[2] == o[1] && r[3] == o[0];
    Swap32Bytes(LeValue32(o));
    LeValue32Bytes(o);
    LeValue32Bytes(r);
    Bytes32Determine(Swap32(LeValue32(o)), LeValue32(r));
  }

  lemma Swap64Reverses(o: seq<bv8>)
    requires |o| == 8
    ensures Swap64(LeValue64(o)) == LeValue64(Reverse(o))
  {
    var r := Reverse(o);
    assert r[0] == o[7] && r[1] == o[6] && r[2] == o[5] && r[3] == o[4] && r[4] == o[3] && r[5] == o[2] && r[6] == o[1] && r[7] == o[0];
    Swap64Bytes(LeValue64(o));
    LeValue64Bytes(o);
    LeValue64Bytes(r);
    Bytes64Determine(Swap64(LeValue64(o)), LeValue64(r));
  }

  lemma ReverseTwice(o: seq<bv8>)
    ensures Reverse(Reverse(o)) == o
  {
  }

  /** Whatever the host's order, le2local applied to the word loaded from octets
      gives their little-endian value, and be2local their big-endian value. */
  lemma Load16Converts(host: Endianness, o: seq<bv8>)
    requires |o| == 2
    ensures Le2Local16(host, Load16(host, o)) == LeValue16(o)
    ensures Be2Local16(host, Load16(host, o)) == LeValue16(Reverse(o))
  {
    Swap16Reverses(o);
    Swap16Reverses(Reverse(o));
    ReverseTwice(o);
  }

  lemma Load32Converts(host: Endianness, o: seq<bv8>)
    requires |o| == 4
    ensures Le2Local32(host, Load32(host, o)) == LeValue32(o)
    ensures Be2Local32(host, Load32(host, o)) == LeValue32(Reverse(o))
  {
    Swap32Reverses(o);
    Swap32Reverses(Reverse(o));
    ReverseTwice(o);
  }

  lemma Load64Converts(host: Endianness, o: seq<bv8>)
    requires |o| == 8
    ensures Le2Local64(host, Load64(host, o)) == LeValue64(o)
    ensures Be2Local64(host, Load64(host, o)) == LeValue64(Reverse(o))
  {
    Swap64Reverses(o);
    Swap64Reverses(Reverse(o));
    ReverseTwice(o);
  }

  /** The two conversions differ by exactly one swap, on either host, and
      converting twice the same way gives the word back. */
  lemma ConversionsRelated(host: Endianness, x16: bv16, x32: bv32, x64: bv64)
    ensures Be2Local16(host, x16) == Swap16(Le2Local16(host, x16))
    ensures Be2Local32(host, x32) == Swap32(Le2Local32(host, x32))
    ensures Be2Local64(host, x64) == Swap64(Le2Local64(host, x64))
    ensures Le2Local16(host, Le2Local16(host, x16)) == x16
    ensures Le2Local32(host, Le2Local32(host, x32)) == x32
    ensures Le2Local64(host, Le2Local64(host, x64)) == x64
  {
    Swap16Involution(x16);
    Swap32Involution(x32);
    Swap64Involution(x64);
  }
}
