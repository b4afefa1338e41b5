/** The integer core of the standalone program airtime_cal.c: the preamble
    chosen from the channel, flags and MCS fields, and the guard and table
    index of `calculate_data_rate`. Its `get_sub_value` and `get_bit` are the
    same code as in packet_analyzer.c and are modelled once, in module Bits. */
module Legacy {
  import opened CInt
  import opened Bits
  import opened Ieee80211
  import opened DurationCalculation

  /** `struct preamble_conditions`: four 1-bit fields. */
  datatype PreambleConditions = PreambleConditions(cck: Bit, ofdm: Bit, shortPreamble: Bit, mcsPresent: Bit)

  /** The preamble length in microseconds; mcs is the index of the MCS field,
      read only when one was present. Every length is a whole number of 4 us
      symbols, and the debugging value 0 is chosen exactly for an MCS field
      beyond index 23 on a frame that is not CCK-only. */
  function LegacyPreamble(pre: PreambleConditions, mcs: U8): (p: nat)
    ensures p % 4 == 0 && p <= 192
    ensures p == 0 <==> !(pre.ofdm == 0 && pre.cck == 1) && pre.mcsPresent == 1 && mcs > 23
    ensures pre.ofdm == 0 && pre.cck == 1 ==> (p == 96 <==> pre.shortPreamble == 1)
  {
    if pre.ofdm == 0 && pre.cck == 1 then
      if pre.shortPreamble == 1 then 96 else 192
    else if pre.mcsPresent == 0 then 20
    else if mcs <= 7 then 36
    else if mcs <= 15 then 40
    else if mcs <= 23 then 44
    else 0
  }

  /** `calculate_data_rate`: None where the program exits, otherwise the index
      into its 128-entry rate table. (`mcs < 0` and the other `< 0` tests can
      never hold for unsigned arguments.) */
  function DataRateIndex(mcs: U8, bandwidth: U8, shortGi: U8): (r: Option<nat>)
    ensures r.Some? <==> mcs <= 31 && bandwidth <= 1 && shortGi <= 1
    ensures r.Some? ==> r.value < 128
  {
    if mcs > 31 || bandwidth > 1 || shortGi > 1 then None
    else Some(4 * mcs + shortGi + 2 * bandwidth)
  }

  /** The index determines the arguments: MCS, bandwidth and guard interval are
      the index's quotient by 4 and its two low bits. */
  lemma DataRateIndexDecodes(mcs: U8, bandwidth: U8, shortGi: U8)
    requires mcs <= 31 && bandwidth <= 1 && shortGi <= 1
    ensures var i := DataRateIndex(mcs, bandwidth, shortGi).value;
      mcs == i / 4 && bandwidth == (i % 4) / 2 && shortGi == i % 2
  {
    var i := 4 * mcs + shortGi + 2 * bandwidth;
    DivUnique(i, 4, mcs, shortGi + 2 * bandwidth);
  }

  /** Every entry of the table is reached, from exactly one argument triple. */
  lemma DataRateIndexCovers(i: nat)
    requires i < 128
    ensures DataRateIndex(i / 4, (i % 4) / 2, i % 2) == Some(i)
  {
    assert i == 4 * (i / 4) + i % 4;
    assert i % 4 == 2 * ((i % 4) / 2) + (i % 4) % 2;
    assert (i % 4) % 2 == i % 2;
  }

  lemma DataRateIndexInjective(m1: U8, b1: U8, g1: U8, m2: U8, b2: U8, g2: U8)
    requires m1 <= 31 && b1 <= 1 && g1 <= 1 && m2 <= 31 && b2 <= 1 && g2 <= 1
    requires DataRateIndex(m1, b1, g1) == DataRateIndex(m2, b2, g2)
    ensures m1 == m2 && b1 == b2 && g1 == g2
  {
    DataRateIndexDecodes(m1, b1, g1);
    DataRateIndexDecodes(m2, b2, g2);
  }

  /** As called from the MCS field, the bandwidth is get_sub_value of the two
      bandwidth bits: 20 MHz and 40 MHz give 0 and 1, 20L also reads as 1 and
      20U as 3, which makes the program exit. */
  lemma DataRateFromMcsFlags(mcs: U8, flags: U8)
    requires mcs <= 31
    ensures var g := SubValue(flags, 0x04);
      var r := DataRateIndex(mcs, SubValue(flags, 0x03), g);
      g == BitAt(flags, 2) &&
      (r.None? <==> flags % 4 == 3) &&
      (r.Some? ==> r.value == 4 * mcs + g + 2 * (if flags % 4 == 0 then 0 else 1))
  {
    assert Shl(1, 2) == 4 && Shl(3, 0) == 3;
    SubValueSingleBit(flags, 0x04, 2);
    SubValueTwoBitField(flags, 0x03, 0);
  }

  lemma HtStreamsFirst32(mcs: nat)
    requires mcs < 32
    ensures HtStreams[mcs] == mcs / 8 + 1
  {
    if mcs < 8 {
    } else if mcs < 16 {
    } else if mcs < 24 {
    } else {
    }
  }

  /** The legacy preamble against the duration calculator. For CCK without OFDM
      it is the 802.11b preamble that `calculate_duration` charges for an empty
      frame at the default rate. */
  lemma LegacyCckPreamble(pre: PreambleConditions, mcs: U8)
    requires pre.ofdm == 0 && pre.cck == 1
    ensures LegacyPreamble(pre, mcs) == DsssDuration(true, pre.shortPreamble, false, 0, 0)
  {
    DsssDurationValue(true, pre.shortPreamble, false, 0, 0);
  }

  /** Without an MCS field it is the 20 us that the 802.11a/g duration adds to
      the symbols (for a non-zero rate and a length where nothing wraps). */
  lemma LegacyOfdmPreamble(pre: PreambleConditions, mcs: U8, hasDataRate: bool, dataRate: U8, len: U32)
    requires !(pre.ofdm == 0 && pre.cck == 1) && pre.mcsPresent == 0
    requires HalfMbps(hasDataRate, dataRate) > 0 && len < 0x800_0000
    ensures OfdmDuration(hasDataRate, dataRate, len) ==
      LegacyPreamble(pre, mcs) + 4 * CeilDiv(22 + 8 * len, 2 * HalfMbps(hasDataRate, dataRate))
  {
    OfdmDurationIsCeiling(hasDataRate, dataRate, len);
  }

  /** With an MCS field of one or two streams it is the 802.11n mixed-format
      preamble, with three streams 4 us shorter, and with four streams (MCS 24
      to 31) it is 0. */
  lemma LegacyHtPreamble(pre: PreambleConditions, mcs: U8, info: HtInfo)
    requires !(pre.ofdm == 0 && pre.cck == 1) && pre.mcsPresent == 1 && mcs < 32
    requires info.mcsIndex == mcs && !info.hasNess && !info.hasGreenfield
    ensures HtPreamble(info, 0).Some?
    ensures mcs <= 15 ==> LegacyPreamble(pre, mcs) == HtPreamble(info, 0).value
    ensures 16 <= mcs <= 23 ==> LegacyPreamble(pre, mcs) + 4 == HtPreamble(info, 0).value
    ensures 24 <= mcs ==> LegacyPreamble(pre, mcs) == 0 && HtPreamble(info, 0).value == 48
  {
    HtStreamsFirst32(mcs);
    MixedPreambleByStreams(info);
  }
}
