/** duration_calculation.c: the airtime of one frame, in microseconds, from its
    PHY descriptor, its length in octets and two flags. The 802.11n data field
    follows equation 20-32 of IEEE 802.11n-2009 (section 20.3.11) and its
    training fields Table 20-11 (section 20.3.9.4.6); the 11b and 11a/g branches
    approximate the TXTIME of sections 17.3.4 and 18.4.3 of IEEE 802.11-2012.
    The C code computes the 11b and 11a/g quotients in `float` and rounds them
    with `ceil`; the model computes the same quotients exactly. */
module DurationCalculation {
  import opened CInt
  import opened Ieee80211

  const MaxMcsIndex: nat := 76

  type Streams = x: nat | 1 <= x <= 4 witness 1
  type Nes = x: nat | 1 <= x <= 2 witness 1
  type Dbps = x: nat | 12 <= x <= 1040 witness 12

  /** `ieee80211_ht_streams`: spatial streams per MCS index (built from rows of
      at most 8 entries, which keeps lookups cheap for the verifier). */
  const HtStreams: seq<Streams> :=
    [1, 1, 1, 1, 1, 1, 1, 1] +
    [2, 2, 2, 2, 2, 2, 2, 2] +
    [3, 3, 3, 3, 3, 3, 3, 3] +
    [4, 4, 4, 4, 4, 4, 4, 4] +
    [1, 2, 2, 2, 2, 2, 2, 3] +
    [3, 3, 3, 3, 3, 3, 3, 3] +
    [3, 3, 3, 3, 3, 4, 4, 4] +
    [4, 4, 4, 4, 4, 4, 4, 4] +
    [4, 4, 4, 4, 4, 4, 4, 4] +
    [4, 4, 4, 4, 4]

  /** `ieee80211_ht_Nes`: BCC encoders per MCS index. */
  const HtNes: seq<Nes> :=
    [1, 1, 1, 1, 1, 1, 1, 1] +
    [1, 1, 1, 1, 1, 1, 1, 1] +
    [1, 1, 1, 1, 1, 2, 2, 2] +
    [1, 1, 1, 1, 2, 2, 2, 2] +
    [1] +
    [1, 1, 1, 1, 1, 1] +
    [1, 1, 1, 1, 1, 1, 1] +
    [1, 1, 1, 1, 1, 1, 1] +
    [1, 1, 1, 1, 1, 1, 1, 1] +
    [1, 1, 1, 1, 1, 1, 1, 1] +
    [1, 2, 2, 2, 2, 2, 2, 2]

  /** `ieee80211_ht_Dbps`: data bits per 20 MHz OFDM symbol per MCS index, in the
      source's groups (MCS 0, 8, 16, 24, 32, 33, 39 and 53 onwards). */
  const HtDbps: seq<Dbps> :=
    [26, 52, 78, 104, 156, 208, 234, 260] +
    [52, 104, 156, 208, 312, 416, 468, 520] +
    [78, 156, 234, 312, 468, 624, 702, 780] +
    [104, 208, 312, 416, 624, 832, 936, 1040] +
    [12] +
    [156, 208, 260, 234, 312, 390] +
    [208, 260, 260, 312, 364, 364, 416, 312, 390, 390, 468, 546, 546, 624] +
    [260, 312, 364, 312, 364, 416, 468, 416, 468, 520, 520, 572] +
    [390, 468, 546, 468, 546, 624, 702, 624, 702, 780, 780, 858]

  /** HT-LTFs for the data streams and for the extension streams (Table 20-11). */
  const Nhtdltf: seq<nat> := [1, 2, 4, 4]
  const Nhteltf: seq<nat> := [0, 1, 2, 4]

  /** Every HT table has one entry per MCS index 0..76, and every entry is in its
      range: a lookup with an index up to 76 is defined, and the divisor of the
      symbol count is never 0. */
  lemma HtTablesWellFormed()
    ensures |HtStreams| == |HtNes| == |HtDbps| == MaxMcsIndex + 1
    ensures forall i | 0 <= i < |HtDbps| :: HtDbps[i] >= 12
    ensures forall i | 0 <= i < |HtStreams| :: 1 <= HtStreams[i] <= 4
  {
  }

  // ---------------------------------------------------------------------------
  // Integer rounding

  /** The quotient rounded up. */
  function CeilDiv(a: nat, d: nat): nat
    requires d > 0
  {
    a / d + (if a % d > 0 then 1 else 0)
  }

  /** CeilDiv(a, d) is the least q with q * d >= a. */
  lemma CeilDivSpec(a: nat, d: nat)
    requires d > 0
    ensures CeilDiv(a, d) * d >= a
    ensures CeilDiv(a, d) == 0 || (CeilDiv(a, d) - 1) * d < a
    ensures CeilDiv(a, d) <= a
  {
    var q, r := a / d, a % d;
    assert a == d * q + r;
    MulMono(q, 1, d);
    if r > 0 {
      assert (q + 1) * d == d * q + d;
    }
  }

  // ---------------------------------------------------------------------------
  // 802.11n (calculate_11n_duration)

  /** Bits of the data field: 8 per octet, plus the 16 service bits and
      6 tail bits per encoder unless the frame is an A-MPDU subframe. */
  function HtDataBits(len: U32, mcs: nat, inAggregate: bool): U32
    requires mcs <= MaxMcsIndex
  {
    if inAggregate then Mul32(8, len) else Add32(Mul32(8, len), 16 + (HtNes[mcs] as nat) * 6)
  }

  /** `Mstbc`: symbols come in pairs when STBC is used. */
  function Mstbc(stbcStreams: nat): nat
  {
    if stbcStreams != 0 then 2 else 1
  }

  /** Data bits per symbol, doubled when the bandwidth code is 1 (40 MHz). */
  function BitsPerSymbol(mcs: nat, bandwidth: U32): nat
    requires mcs <= MaxMcsIndex
  {
    (HtDbps[mcs] as nat) * (if bandwidth == 1 then 2 else 1)
  }

  /** The symbol count: the least multiple of `m` whose symbols carry all bits. */
  function HtSymbols(bits: U32, bps: nat, m: nat): (s: U32)
    requires bps >= 12 && (m == 1 || m == 2)
    ensures s % m == 0
    ensures s * bps >= bits
    ensures s == 0 || (s - m) * bps < bits
  {
    RoundedSymbols(bits, bps, m);
    CeilDiv(bits, bps * m) * m
  }

  lemma RoundedSymbols(bits: U32, bps: nat, m: nat)
    requires bps >= 12 && (m == 1 || m == 2)
    ensures var s := CeilDiv(bits, bps * m) * m;
      s < Two32 && s % m == 0 && s * bps >= bits && (s == 0 || (s - m) * bps < bits)
  {
    var d := bps * m;
    var q := CeilDiv(bits, d);
    CeilDivSpec(bits, d);
    assert q * m * bps == q * d;
    if q > 0 {
      assert (q * m - m) * bps == (q - 1) * d;
      if m == 2 {
        MulMono(q - 1, 24, d);
      }
    }
  }

  /** `calculate_11n_duration`: `(symbols * (short_gi ? 36 : 40) + 5) / 10`
      in `unsigned int` arithmetic (a symbol lasts 4 us, or 3.6 us with the short
      guard interval, in tenths of a microsecond, rounded). */
  function HtDataDuration(len: U32, info: HtInfo, stbcStreams: U2, inAggregate: bool): U32
    requires info.mcsIndex <= MaxMcsIndex
  {
    var bits := HtDataBits(len, info.mcsIndex, inAggregate);
    var symbols := HtSymbols(bits, BitsPerSymbol(info.mcsIndex, info.bandwidth), Mstbc(stbcStreams));
    Add32(Mul32(symbols, if info.shortGi == 1 then 36 else 40), 5) / 10
  }

  /** The HT preamble of the first frame of a transmission, or None where
      `calculate_duration` breaks out (too many extension or space-time streams). */
  function HtPreamble(info: HtInfo, stbcStreams: U2): (r: Option<nat>)
    requires info.mcsIndex <= MaxMcsIndex
    ensures r.None? <==>
      (info.hasNess && info.ness % 0x100 > 3) || HtStreams[info.mcsIndex] + stbcStreams > 4
    ensures r.Some? ==> 28 <= r.value <= 64 && r.value % 4 == 0
  {
    var ness := if info.hasNess then info.ness % 0x100 else 0;
    if ness > 3 then None
    else
      var nsts := HtStreams[info.mcsIndex] + stbcStreams;
      if nsts == 0 || nsts - 1 > 3 then None
      else
        var base := if info.hasGreenfield && info.greenfield == 1 then 24 else 32;
        Some(base + 4 * (Nhtdltf[nsts - 1] + Nhteltf[ness]))
  }

  /** The 11N case of `calculate_duration`. */
  function HtDuration(len: U32, info: HtInfo, inAggregate: bool, firstFrame: bool): U32
    requires info.mcsIndex <= MaxMcsIndex
  {
    var stbc := if info.hasStbcStreams then info.stbcStreams else 0;
    var data := HtDataDuration(len, info, stbc, inAggregate);
    if !firstFrame then data
    else match HtPreamble(info, stbc)
      case None => 0
      case Some(p) => Add32(p, data)
  }

  // ---------------------------------------------------------------------------
  // 11b and 11a/g

  /** The 11b case: `ceil(preamble + frame_length*8 / data_rate)` with the rate in
      units of 0.5 Mb/s, or 1 Mb/s when no rate was captured. A captured rate of 0
      divides by zero in `float`; its out-of-range conversion is taken as 0. */
  function DsssDuration(hasShortPreamble: bool, shortPreamble: Bit, hasDataRate: bool,
                        dataRate: U8, len: U32): U32
  {
    var preamble := if hasShortPreamble && shortPreamble == 1 then 96 else 192;
    var payloadBits := Mul32(len, 8);
    if !hasDataRate then (preamble + payloadBits) % Two32
    else if dataRate == 0 then 0
    else (preamble + CeilDiv(2 * payloadBits, dataRate)) % Two32
  }

  /** The 11a/11g case: 20 us of preamble and signal, then 4 us per symbol of
      4 * rate bits carrying 16 service bits, the data and 6 tail bits. */
  function OfdmDuration(hasDataRate: bool, dataRate: U8, len: U32): U32
  {
    var bits := Add32(Add32(16, Mul32(8, len)), 6);
    var symbols: U32 :=
      if !hasDataRate then (CeilDivSpec(bits, 4); CeilDiv(bits, 4))
      else if dataRate == 0 then 0
      else (CeilDivSpec(bits, 2 * dataRate); CeilDiv(bits, 2 * dataRate));
    Add32(20, Mul32(symbols, 4))
  }

  // ---------------------------------------------------------------------------
  // calculate_duration

  /** `calculate_duration` as written: the 11N case indexes the 77-entry tables
      with the captured MCS index without a bound check. */
  function CalculateDuration(h: PhyHeader, len: U32, inAggregate: bool, firstFrame: bool): U32
    requires h.phy.Phy11n? ==> h.phy.ht.mcsIndex <= MaxMcsIndex
  {
    match h.phy
    case Phy11b(hasSp, sp) => DsssDuration(hasSp, sp, h.hasDataRate, h.dataRate, len)
    case Phy11g(_, _, _, _) => OfdmDuration(h.hasDataRate, h.dataRate, len)
    case Phy11a(_, _, _, _) => OfdmDuration(h.hasDataRate, h.dataRate, len)
    case Phy11n(info) => HtDuration(len, info, inAggregate, firstFrame)
    case _ => 0
  }

  /** `calculate_duration` with the MCS index checked against MAX_MCS_INDEX:
      an index outside the tables contributes no airtime. Its contract only
      relates it to CalculateDuration; what the durations are is stated by the
      lemmas below (HtSymbols, HtPreamble, DsssDurationIsCeiling, ...). */
  function Duration(h: PhyHeader, len: U32, inAggregate: bool, firstFrame: bool): (d: U32)
    ensures h.phy.Phy11n? && h.phy.ht.mcsIndex > MaxMcsIndex ==> d == 0
    ensures !(h.phy.Phy11n? && h.phy.ht.mcsIndex > MaxMcsIndex) ==>
      d == CalculateDuration(h, len, inAggregate, firstFrame)
  {
    if h.phy.Phy11n? && h.phy.ht.mcsIndex > MaxMcsIndex then 0
    else CalculateDuration(h, len, inAggregate, firstFrame)
  }

  // ---------------------------------------------------------------------------
  // Properties

  /** The rate of the 11b and 11a/g branches in units of 0.5 Mb/s: the captured
      one, or 1 Mb/s by default. */
  function HalfMbps(hasDataRate: bool, dataRate: U8): nat
  {
    if hasDataRate then dataRate else 2
  }

  /** The HT data duration is 4 us per symbol with the long guard interval, and
      3.6 us per symbol rounded to the nearest microsecond with the short one
      (for frames short enough that nothing wraps). */
  lemma HtSymbolTime(len: U32, info: HtInfo, stbcStreams: U2, inAggregate: bool)
    requires info.mcsIndex <= MaxMcsIndex
    requires len < 0x100_0000
    ensures var s := HtSymbols(HtDataBits(len, info.mcsIndex, inAggregate),
                               BitsPerSymbol(info.mcsIndex, info.bandwidth), Mstbc(stbcStreams));
      var d := HtDataDuration(len, info, stbcStreams, inAggregate);
      (info.shortGi == 0 ==> d == 4 * s) &&
      (info.shortGi == 1 ==> 10 * d <= 36 * s + 5 < 10 * d + 10)
  {
    var bits := HtDataBits(len, info.mcsIndex, inAggregate);
    var bps := BitsPerSymbol(info.mcsIndex, info.bandwidth);
    var m := Mstbc(stbcStreams);
    var s := HtSymbols(bits, bps, m);
    HtDataBitsBound(len, info.mcsIndex, inAggregate);
    SymbolCountBound(bits, bps, m, s);
    GuardIntervalRounding(s);
  }

  lemma HtDataBitsBound(len: U32, mcs: nat, inAggregate: bool)
    requires mcs <= MaxMcsIndex && len < 0x100_0000
    ensures HtDataBits(len, mcs, inAggregate) < 0x1000_0000
  {
    var nes: nat := HtNes[mcs];
    assert Mul32(8, len) == 8 * len;
    assert 16 + nes * 6 <= 28;
  }

  lemma SymbolCountBound(bits: nat, bps: nat, m: nat, s: nat)
    requires bits < 0x1000_0000 && bps >= 12 && (m == 1 || m == 2)
    requires s == 0 || (s - m) * bps < bits
    ensures s < 0x200_0000
  {
    if s > m {
      MulMono(s - m, 12, bps);
    }
  }

  /** A rounded-up quotient by a divisor of at least k is at most a / k + 1. */
  lemma QuotientBound(a: nat, d: nat, q: nat, k: nat)
    requires 1 <= k <= d
    requires q == 0 || (q - 1) * d < a
    ensures q * k < a + k
  {
    if q > 0 {
      MulMono(q - 1, k, d);
    }
  }

  lemma GuardIntervalRounding(s: nat)
    requires s < 0x200_0000
    ensures Add32(Mul32(s, 40), 5) / 10 == 4 * s
    ensures var d := Add32(Mul32(s, 36), 5) / 10; 10 * d <= 36 * s + 5 < 10 * d + 10
  {
    assert Mul32(s, 40) == 40 * s;
    assert Add32(40 * s, 5) == 40 * s + 5;
    DivUnique(40 * s + 5, 10, 4 * s, 5);
    assert Mul32(s, 36) == 36 * s;
    assert Add32(36 * s, 5) == 36 * s + 5;
    var n := 36 * s + 5;
    assert n == 10 * (n / 10) + n % 10;
  }

  /** With `first_frame` set, an 11N duration is the preamble plus the same data
      duration, or 0 when the preamble cannot be computed; every other PHY
      ignores the flag. */
  lemma FirstFrameAddsPreamble(h: PhyHeader, len: U32, inAggregate: bool)
    ensures !h.phy.Phy11n? ==>
      Duration(h, len, inAggregate, true) == Duration(h, len, inAggregate, false)
    ensures h.phy.Phy11n? && h.phy.ht.mcsIndex <= MaxMcsIndex ==>
      var info := h.phy.ht;
      var stbc := if info.hasStbcStreams then info.stbcStreams else 0;
      Duration(h, len, inAggregate, true) ==
        match HtPreamble(info, stbc)
        case None => 0
        case Some(p) => Add32(p, Duration(h, len, inAggregate, false))
  {
  }

  /** For the mixed format without STBC or extension streams, the preamble is
      36, 40, 48 and 48 us for 1 to 4 spatial streams. */
  lemma MixedPreambleByStreams(info: HtInfo)
    requires info.mcsIndex <= MaxMcsIndex
    requires !info.hasNess && !info.hasGreenfield
    ensures HtPreamble(info, 0) == Some([36, 40, 48, 48][HtStreams[info.mcsIndex] - 1])
  {
  }

  /** The 11b duration is the least whole number of microseconds covering the
      preamble and 8 * len bits at rate / 2 Mb/s. */
  lemma DsssDurationIsCeiling(hasShortPreamble: bool, shortPreamble: Bit, hasDataRate: bool,
                              dataRate: U8, len: U32)
    requires HalfMbps(hasDataRate, dataRate) > 0
    requires len < 0x800_0000
    ensures var d := DsssDuration(hasShortPreamble, shortPreamble, hasDataRate, dataRate, len);
      var r := HalfMbps(hasDataRate, dataRate);
      var p := if hasShortPreamble && shortPreamble == 1 then 96 else 192;
      d * r >= p * r + 16 * len && (d - 1) * r < p * r + 16 * len
  {
    var r := HalfMbps(hasDataRate, dataRate);
    var p := if hasShortPreamble && shortPreamble == 1 then 96 else 192;
    DsssDurationValue(hasShortPreamble, shortPreamble, hasDataRate, dataRate, len);
    CeilDivSpec(16 * len, r);
    CeilingShift(p, CeilDiv(16 * len, r), r, 16 * len);
  }

  /** The 11b duration is the preamble plus the rounded-up payload time. */
  lemma DsssDurationValue(hasShortPreamble: bool, shortPreamble: Bit, hasDataRate: bool,
                          dataRate: U8, len: U32)
    requires HalfMbps(hasDataRate, dataRate) > 0
    requires len < 0x800_0000
    ensures DsssDuration(hasShortPreamble, shortPreamble, hasDataRate, dataRate, len) ==
      (if hasShortPreamble && shortPreamble == 1 then 96 else 192) +
      CeilDiv(16 * len, HalfMbps(hasDataRate, dataRate))
  {
    var r := HalfMbps(hasDataRate, dataRate);
    var w := 16 * len;
    assert Mul32(len, 8) == 8 * len;
    CeilDivSpec(w, r);
    if hasDataRate {
      assert 2 * Mul32(len, 8) == w;
      assert CeilDiv(w, r) <= w;
    } else {
      DivUnique(w, 2, 8 * len, 0);
      assert CeilDiv(w, 2) == 8 * len;
    }
  }

  lemma CeilingShift(p: nat, q: nat, r: nat, w: nat)
    requires r > 0 && q * r >= w && (q == 0 || (q - 1) * r < w)
    ensures (p + q) * r >= p * r + w && (p + q - 1) * r < p * r + w
  {
    assert (p + q) * r == p * r + q * r;
    assert (p + q - 1) * r == p * r + (q - 1) * r;
  }

  /** The 11a/g duration is 20 us plus 4 us per symbol, for the fewest symbols of
      4 * rate / 2 bits that carry the 22 + 8 * len bits (CeilDivSpec states that
      CeilDiv is that fewest number). */
  lemma OfdmDurationIsCeiling(hasDataRate: bool, dataRate: U8, len: U32)
    requires HalfMbps(hasDataRate, dataRate) > 0
    requires len < 0x800_0000
    ensures OfdmDuration(hasDataRate, dataRate, len) ==
      20 + 4 * CeilDiv(22 + 8 * len, 2 * HalfMbps(hasDataRate, dataRate))
  {
    var r := HalfMbps(hasDataRate, dataRate);
    OfdmBits(len);
    assert OfdmDuration(hasDataRate, dataRate, len) == Add32(20, Mul32(CeilDiv(22 + 8 * len, 2 * r), 4));
    OfdmSymbolsFit(len, r);
  }

  lemma OfdmBits(len: U32)
    requires len < 0x800_0000
    ensures Add32(Add32(16, Mul32(8, len)), 6) == 22 + 8 * len
  {
    assert Mul32(8, len) == 8 * len;
    assert Add32(16, 8 * len) == 16 + 8 * len;
  }

  lemma OfdmSymbolsFit(len: U32, r: nat)
    requires len < 0x800_0000 && r > 0
    ensures Add32(20, Mul32(CeilDiv(22 + 8 * len, 2 * r), 4)) == 20 + 4 * CeilDiv(22 + 8 * len, 2 * r)
  {
    var bits := 22 + 8 * len;
    CeilDivSpec(bits, 2 * r);
    SymbolsFit(bits, 2 * r, CeilDiv(bits, 2 * r));
  }

  lemma SymbolsFit(bits: nat, d: nat, q: nat)
    requires bits < 0x4100_0000 && d >= 2
    requires q == 0 || (q - 1) * d < bits
    ensures q < 0x4000_0000
    ensures Add32(20, Mul32(q, 4)) == 20 + 4 * q
  {
    QuotientBound(bits, d, q, 2);
    assert q * 2 < bits + 2;
    assert 4 * q < 2 * bits + 4;
    assert Mul32(q, 4) == 4 * q;
  }

  /** FHSS, 11ac and every PHY without a case take no airtime. */
  lemma NoDurationWithoutCase(h: PhyHeader, len: U32, inAggregate: bool, firstFrame: bool)
    requires !(h.phy.Phy11b? || h.phy.Phy11a? || h.phy.Phy11g? || h.phy.Phy11n?)
    ensures Duration(h, len, inAggregate, firstFrame) == 0
  {
  }

  /** Worked example: 100 octets at 1 Mb/s with a short preamble take 896 us. */
  lemma DsssExample()
    ensures Duration(PhyHeader(Phy11b(true, 1), true, 2, false, 0, false, 0, 0), 100, false, false) == 896
  {
    assert Mul32(100, 8) == 800;
    assert CeilDiv(1600, 2) == 800;
  }

  /** Worked example: 60 octets at 12 Mb/s in OFDM take 64 us. */
  lemma OfdmExample()
    ensures Duration(PhyHeader(Phy11g(false, false, 0, 0), true, 24, false, 0, false, 0, 0), 60, false, false) == 64
  {
    assert Add32(Add32(16, Mul32(8, 60)), 6) == 502;
    assert CeilDiv(502, 48) == 11;
  }

  /** Worked example: 1500 octets of MCS 7 at 20 MHz with the long guard interval
      take 188 us of data. */
  lemma HtExample()
    ensures Duration(PhyHeader(Phy11n(HtInfo(true, true, true, false, false, false, false, 7, 0, 0, 0, 0, 0, 0)),
                               false, 0, false, 0, false, 0, 0), 1500, false, false) == 188
  {
    var info := HtInfo(true, true, true, false, false, false, false, 7, 0, 0, 0, 0, 0, 0);
    assert HtNes[7] == 1 && HtDbps[7] == 260;
    assert HtDataBits(1500, 7, false) == 12022;
    assert BitsPerSymbol(7, 0) == 260;
    assert CeilDiv(12022, 260) == 47;
    assert HtSymbols(12022, 260, 1) == 47;
    assert HtDataDuration(1500, info, 0, false) == 188;
  }
}
