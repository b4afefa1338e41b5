/** The PHY descriptor of ieee80211.h and the remembered previous frame of
    packet_analyzer.h. The C union `ieee_802_11_phy_info` selected by the `phy`
    tag becomes one datatype whose constructor is the tag; a payload holds the
    fields the analyzer sets for that PHY. */
module Ieee80211 {
  import opened CInt

  /** 802.11n information (`struct ieee_802_11n`); the widths follow its bit-fields. */
  datatype HtInfo = HtInfo(
    hasMcsIndex: bool,
    hasBandwidth: bool,
    hasShortGi: bool,
    hasGreenfield: bool,
    hasFec: bool,
    hasStbcStreams: bool,
    hasNess: bool,
    mcsIndex: U16,
    bandwidth: U32,
    shortGi: Bit,
    greenfield: Bit,
    fec: Bit,
    stbcStreams: U2,
    ness: U32)

  /** The `phy` tag together with the union member it selects. FHSS, IR, DSSS,
      11ac and 11ad carry no payload: the analyzer only clears their presence
      flags, and nothing reads them. */
  datatype Phy =
    | PhyUnknown
    | Phy11Fhss
    | Phy11Ir
    | Phy11Dsss
    | Phy11b(hasShortPreamble: bool, shortPreamble: Bit)
    | Phy11a(hasChannelType: bool, hasTurboType: bool, channelType: U2, turboType: U2)
    | Phy11g(hasShortPreamble: bool, hasMode: bool, shortPreambleByte: U8, mode: U32)
    | Phy11n(ht: HtInfo)
    | Phy11ac
    | Phy11ad

  /** The numeric `PHDR_802_11_PHY_*` value of a PHY. */
  function Tag(p: Phy): (t: nat)
    ensures t <= 9
  {
    match p
    case PhyUnknown => 0
    case Phy11Fhss => 1
    case Phy11Ir => 2
    case Phy11Dsss => 3
    case Phy11b(_, _) => 4
    case Phy11a(_, _, _, _) => 5
    case Phy11g(_, _, _, _) => 6
    case Phy11n(_) => 7
    case Phy11ac => 8
    case Phy11ad => 9
  }

  /** Comparing tags (as `phdr->phy == prev_frame.phy` does) is comparing the
      kind of PHY, whatever the payloads. */
  lemma TagIdentifiesKind(p: Phy, q: Phy)
    ensures Tag(p) == Tag(q) <==>
      (p.PhyUnknown? && q.PhyUnknown?) || (p.Phy11Fhss? && q.Phy11Fhss?) ||
      (p.Phy11Ir? && q.Phy11Ir?) || (p.Phy11Dsss? && q.Phy11Dsss?) ||
      (p.Phy11b? && q.Phy11b?) || (p.Phy11a? && q.Phy11a?) ||
      (p.Phy11g? && q.Phy11g?) || (p.Phy11n? && q.Phy11n?) ||
      (p.Phy11ac? && q.Phy11ac?) || (p.Phy11ad? && q.Phy11ad?)
  {
  }

  /** The fields of `struct ieee_802_11_phdr` that the analyzer fills in; the
      others (channel, frequency, signal and noise levels, FCS length) are never
      set and never read. */
  datatype PhyHeader = PhyHeader(
    phy: Phy,
    hasDataRate: bool,
    dataRate: U8,
    hasTsf: bool,
    tsf: bv64,
    hasAggregateInfo: bool,
    aggregateFlags: bv16,
    aggregateId: bv32)

  /** `struct previous_frame_info`. */
  datatype PreviousFrame = PreviousFrame(
    hasTsf: bool,
    tsf: bv64,
    phy: Phy,
    prevLength: U32,
    duration: U32)

  /** The zero-initialised static `prev_frame`: tag 0 is PHY_UNKNOWN. */
  const InitialPreviousFrame := PreviousFrame(false, 0, PhyUnknown, 0, 0)
}
