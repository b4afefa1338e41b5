/** The first half of `got_packet` in packet_analyzer.c: the loop over the
    radiotap fields that fills the `checker` record and part of the PHY
    descriptor, then the fixed precedence that picks exactly one PHY.
    The radiotap iterator is a foreign library: the model receives the fields it
    yields, in order, and the status it finally returns. */
module Classifier {
  import opened CInt
  import opened Bits
  import opened Endian
  import opened Ieee80211

  // Channel flags of the radiotap CHANNEL field.
  const ChanCck: U32 := 0x0020
  const ChanOfdm: U32 := 0x0040
  const Chan2Ghz: U32 := 0x0080
  const Chan5Ghz: U32 := 0x0100
  const ChanDyn: U32 := 0x0400

  // Bits of the radiotap FLAGS field.
  const FlagShortPreamble: U32 := 0x02
  const FlagFcs: U32 := 0x10

  // Bits of the `known` byte of the radiotap MCS field (0x40 is written as a literal).
  const McsHaveBw: U32 := 0x01
  const McsHaveMcs: U32 := 0x02
  const McsHaveGi: U32 := 0x04
  const McsHaveFmt: U32 := 0x08
  const McsHaveFec: U32 := 0x10
  const McsHaveStbc: U32 := 0x20
  const McsHaveNess: U32 := 0x40

  // Sub-fields of the `flags` byte of the radiotap MCS field (0x80 is a literal).
  const McsBwMask: U32 := 0x03
  const McsSgi: U32 := 0x04
  const McsFmtGf: U32 := 0x08
  const McsFecLdpc: U32 := 0x10
  const McsStbcMask: U32 := 0x60
  const McsNess: U32 := 0x80

  /** The iterator's status at the end of a well-formed header: `-ENOENT`. */
  const EndOfFields: int := -2

  type Octets8 = o: seq<bv8> | |o| == 8 witness [0, 0, 0, 0, 0, 0, 0, 0]

  /** A radiotap field as the iterator yields it. Multi-octet values are the words
      a host of the model's byte order loads from the packet, before conversion;
      TSFT keeps its 8 octets. */
  datatype Field =
    | Tsft(octets: Octets8)
    | Flags(flags: U8)
    | Rate(rate: U8)
    | Channel(frequency: bv16, channelFlags: bv16)
    | Fhss
    | Mcs(known: U8, mcsFlags: U8, mcs: U8)
    | AmpduStatus(referenceNum: bv32, ampduFlags: bv16, delimiterCrc: U8, reserved: U8)
    | Vht
    | Other(index: nat)

  datatype RadiotapWalk = RadiotapWalk(fields: seq<Field>, status: int)

  /** The `checker` record; `has_mcs` is the presence of the MCS header below. */
  datatype Checker = Checker(
    hasFhss: Bit,
    is2Ghz: Bit,
    is5Ghz: Bit,
    isOfdm: Bit,
    isCck: Bit,
    cckOfdm: Bit,
    hasVht: Bit,
    shortPreamble: Bit,
    shortGi: Bit,
    fcsAtEnd: Bit)

  /** `struct MCS_radiotap_header`, kept through the `mcsInfo` pointer. */
  datatype McsHeader = McsHeader(known: U8, flags: U8, mcs: U8)

  /** Everything the field loop writes: the checker, the raw flags byte, the MCS
      header and the descriptor fields that the loop fills in. */
  datatype Scan = Scan(
    checker: Checker,
    flagsRtap: U8,
    mcsInfo: Option<McsHeader>,
    hasDataRate: bool,
    dataRate: U8,
    hasTsf: bool,
    tsf: bv64,
    hasAggregateInfo: bool,
    aggregateFlags: bv16,
    aggregateId: bv32)

  /** Before the loop: every flag and value zero, no MCS header. */
  const InitialScan := Scan(Checker(0, 0, 0, 0, 0, 0, 0, 0, 0, 0), 0, None, false, 0, false, 0, false, 0, 0)

  function HasMcs(s: Scan): bool
  {
    s.mcsInfo.Some?
  }

  // ---------------------------------------------------------------------------
  // TSFT

  /** The TSF value as written: `le2local64(*(iter.this_arg))` dereferences the
      iterator's octet pointer, so only the first octet is converted. */
  function TsfAsWritten(host: Endianness, o: Octets8): bv64
  {
    Le2Local64(host, o[0] as bv64)
  }

  /** The TSF value read as the 64-bit little-endian word radiotap defines. */
  function TsfValue(host: Endianness, o: Octets8): (t: bv64)
    ensures t == LeValue64(o)
  {
    Load64Converts(host, o);
    Le2Local64(host, Load64(host, o))
  }

  /** How the loop reads the TSFT field: `FirstOctet` is the code as written,
      `FullWord` the 64-bit read the A-MPDU tests of `in_ampdu` rely on. */
  datatype TsfRead = FirstOctet | FullWord

  function ReadTsf(read: TsfRead, host: Endianness, o: Octets8): bv64
  {
    match read
    case FirstOctet => TsfAsWritten(host, o)
    case FullWord => TsfValue(host, o)
  }

  // ---------------------------------------------------------------------------
  // The field loop

  /** One pass of the loop body for one field. */
  function Step(host: Endianness, read: TsfRead, s: Scan, f: Field): Scan
  {
    match f
    case Rate(r) => s.(hasDataRate := true, dataRate := r)
    case Fhss => s.(checker := s.checker.(hasFhss := 1))
    case Channel(_, raw) =>
      var flags := Le2Local16(host, raw) as nat;
      s.(checker := s.checker.(
        isOfdm := ToBit(SubValue(flags, ChanOfdm)),
        isCck := ToBit(SubValue(flags, ChanCck)),
        is2Ghz := ToBit(SubValue(flags, Chan2Ghz)),
        is5Ghz := ToBit(SubValue(flags, Chan5Ghz)),
        cckOfdm := ToBit(SubValue(flags, ChanDyn))))
    case Tsft(o) => s.(hasTsf := true, tsf := ReadTsf(read, host, o))
    case AmpduStatus(ref, fl, _, _) =>
      s.(hasAggregateInfo := true, aggregateFlags := fl, aggregateId := Le2Local32(host, ref))
    case Mcs(known, fl, mcs) =>
      s.(mcsInfo := Some(McsHeader(known, fl, mcs)),
         checker := s.checker.(shortGi := ToBit(SubValue(fl, McsSgi))))
    case Flags(b) =>
      s.(flagsRtap := b,
         checker := s.checker.(shortPreamble := ToBit(SubValue(b, FlagShortPreamble)),
                               fcsAtEnd := ToBit(SubValue(b, FlagFcs))))
    case Vht => s.(checker := s.checker.(hasVht := 1))
    case Other(_) => s
  }

  /** The state after the loop has consumed all the fields, in order. */
  function Summarize(host: Endianness, read: TsfRead, fields: seq<Field>): Scan
  {
    if |fields| == 0 then InitialScan
    else Step(host, read, Summarize(host, read, fields[..|fields| - 1]), fields[|fields| - 1])
  }

  /** The field loop of `got_packet`, updating the checker and the descriptor
      field by field. */
  method ScanFields(host: Endianness, read: TsfRead, fields: seq<Field>) returns (s: Scan)
    ensures s == Summarize(host, read, fields)
  {
    s := InitialScan;
    var i := 0;
    while i < |fields|
      invariant 0 <= i <= |fields|
      invariant s == Summarize(host, read, fields[..i])
    {
      var f := fields[i];
      assert fields[..i + 1][..i] == fields[..i];
      if f.Rate? {
        s := s.(hasDataRate := true, dataRate := f.rate);
      } else if f.Fhss? {
        s := s.(checker := s.checker.(hasFhss := 1));
      } else if f.Channel? {
        var flags := Le2Local16(host, f.channelFlags) as nat;
        var ofdm := GetSubValue(flags, ChanOfdm);
        var cck := GetSubValue(flags, ChanCck);
        var ghz2 := GetSubValue(flags, Chan2Ghz);
        var ghz5 := GetSubValue(flags, Chan5Ghz);
        var dyn := GetSubValue(flags, ChanDyn);
        s := s.(checker := s.checker.(isOfdm := ToBit(ofdm), isCck := ToBit(cck),
                                      is2Ghz := ToBit(ghz2), is5Ghz := ToBit(ghz5),
                                      cckOfdm := ToBit(dyn)));
      } else if f.Tsft? {
        s := s.(hasTsf := true, tsf := ReadTsf(read, host, f.octets));
      } else if f.AmpduStatus? {
        s := s.(hasAggregateInfo := true, aggregateFlags := f.ampduFlags,
                aggregateId := Le2Local32(host, f.referenceNum));
      } else if f.Mcs? {
        var sgi := GetSubValue(f.mcsFlags, McsSgi);
        s := s.(mcsInfo := Some(McsHeader(f.known, f.mcsFlags, f.mcs)),
                checker := s.checker.(shortGi := ToBit(sgi)));
      } else if f.Flags? {
        var sp := GetSubValue(f.flags, FlagShortPreamble);
        var fcs := GetSubValue(f.flags, FlagFcs);
        s := s.(flagsRtap := f.flags,
                checker := s.checker.(shortPreamble := ToBit(sp), fcsAtEnd := ToBit(fcs)));
      } else if f.Vht? {
        s := s.(checker := s.checker.(hasVht := 1));
      }
      i := i + 1;
    }
    assert fields[..|fields|] == fields;
  }

  // ---------------------------------------------------------------------------
  // Classification

  /** The 802.11n descriptor from the MCS header: each `has_X` comes from its
      bit of `known`, and a value is read from `flags` only when its bit is set. */
  function HtFromMcs(m: McsHeader): HtInfo
  {
    var hasMcs := SubValue(m.known, McsHaveMcs) != 0;
    var hasBw := SubValue(m.known, McsHaveBw) != 0;
    var hasGi := SubValue(m.known, McsHaveGi) != 0;
    var hasFmt := SubValue(m.known, McsHaveFmt) != 0;
    var hasFec := SubValue(m.known, McsHaveFec) != 0;
    var hasStbc := SubValue(m.known, McsHaveStbc) != 0;
    var hasNess := SubValue(m.known, McsHaveNess) != 0;
    HtInfo(
      hasMcs, hasBw, hasGi, hasFmt, hasFec, hasStbc, hasNess,
      if hasMcs then m.mcs else 0,
      if hasBw then SubValue(m.flags, McsBwMask) else 0,
      if hasGi then ToBit(SubValue(m.flags, McsSgi)) else 0,
      if hasFmt then ToBit(SubValue(m.flags, McsFmtGf)) else 0,
      if hasFec then ToBit(SubValue(m.flags, McsFecLdpc)) else 0,
      if hasStbc then ToU2(SubValue(m.flags, McsStbcMask)) else 0,
      if hasNess then SubValue(m.flags, McsNess) else 0)
  }

  predicate IsDsssRate(r: U8)
  {
    r == 2 || r == 4 || r == 11 || r == 22
  }

  predicate IsOfdmRate(r: U8)
  {
    r == 12 || r == 18 || r == 24 || r == 36 || r == 48 || r == 72 || r == 96 || r == 108
  }

  /** The PHY and the descriptor after the precedence chain at lines 190-339. */
  function Classify(s: Scan): PhyHeader
  {
    var c := s.checker;
    var phy :=
      if c.hasFhss == 1 then Phy11Fhss
      else if c.isCck == 1 || IsDsssRate(s.dataRate) then
        Phy11b(s.flagsRtap != 0, if s.flagsRtap != 0 then c.shortPreamble else 0)
      else if c.is5Ghz == 1 && c.isOfdm == 1 && !HasMcs(s) && c.hasVht == 0 then
        Phy11a(false, false, 0, 0)
      else if (c.is2Ghz == 1 && (c.isOfdm == 1 || c.cckOfdm == 1) && !HasMcs(s))
           || (s.hasDataRate && IsOfdmRate(s.dataRate)) then
        Phy11g(s.flagsRtap != 0, false, if s.flagsRtap != 0 then 1 else 0, 0)
      else if HasMcs(s) && c.hasVht == 0 then Phy11n(HtFromMcs(s.mcsInfo.value))
      else if c.hasVht == 1 then Phy11ac
      else PhyUnknown;
    PhyHeader(phy, s.hasDataRate, s.dataRate, s.hasTsf, s.tsf,
              s.hasAggregateInfo, s.aggregateFlags, s.aggregateId)
  }

  // ---------------------------------------------------------------------------
  // The field loop, described field kind by field kind

  datatype Kind = KTsft | KFlags | KRate | KChannel | KFhss | KMcs | KAmpdu | KVht | KOther

  function KindOf(f: Field): Kind
  {
    match f
    case Tsft(_) => KTsft
    case Flags(_) => KFlags
    case Rate(_) => KRate
    case Channel(_, _) => KChannel
    case Fhss => KFhss
    case Mcs(_, _, _) => KMcs
    case AmpduStatus(_, _, _, _) => KAmpdu
    case Vht => KVht
    case Other(_) => KOther
  }

  /** The last field of kind k, if there is one. */
  function LastOf(fs: seq<Field>, k: Kind): Option<Field>
  {
    if |fs| == 0 then None
    else if KindOf(fs[|fs| - 1]) == k then Some(fs[|fs| - 1])
    else LastOf(fs[..|fs| - 1], k)
  }

  /** LastOf finds a field of kind k among fs, and finds none exactly when no
      field of fs has kind k. */
  lemma {:induction false} LastOfSpec(fs: seq<Field>, k: Kind)
    ensures LastOf(fs, k).Some? ==> KindOf(LastOf(fs, k).value) == k && LastOf(fs, k).value in fs
    ensures LastOf(fs, k).None? <==> forall i | 0 <= i < |fs| :: KindOf(fs[i]) != k
  {
    if |fs| > 0 && KindOf(fs[|fs| - 1]) != k {
      var init := fs[..|fs| - 1];
      LastOfSpec(init, k);
      assert forall i | 0 <= i < |init| :: init[i] == fs[i];
      assert fs == init + [fs[|fs| - 1]];
    }
  }

  /** The last payload of each field kind seen so far; FHSS and VHT fields carry
      none, so only their presence is kept. */
  datatype Latest = Latest(
    tsft: Option<Octets8>,
    flags: Option<U8>,
    rate: Option<U8>,
    channelFlags: Option<bv16>,
    fhss: bool,
    mcs: Option<McsHeader>,
    ampdu: Option<(bv32, bv16)>,
    vht: bool)

  /** The last field of each kind in fs. */
  function LatestOf(fs: seq<Field>): Latest
  {
    Latest(
      tsft := match LastOf(fs, KTsft) case Some(Tsft(o)) => Some(o) case _ => None,
      flags := match LastOf(fs, KFlags) case Some(Flags(b)) => Some(b) case _ => None,
      rate := match LastOf(fs, KRate) case Some(Rate(r)) => Some(r) case _ => None,
      channelFlags := match LastOf(fs, KChannel) case Some(Channel(_, raw)) => Some(raw) case _ => None,
      fhss := LastOf(fs, KFhss).Some?,
      mcs := match LastOf(fs, KMcs) case Some(Mcs(k, fl, m)) => Some(McsHeader(k, fl, m)) case _ => None,
      ampdu := match LastOf(fs, KAmpdu) case Some(AmpduStatus(ref, fl, _, _)) => Some((ref, fl)) case _ => None,
      vht := LastOf(fs, KVht).Some?)
  }

  /** One more field replaces the entry of its kind. */
  function Remember(l: Latest, f: Field): Latest
  {
    match f
    case Tsft(o) => l.(tsft := Some(o))
    case Flags(b) => l.(flags := Some(b))
    case Rate(r) => l.(rate := Some(r))
    case Channel(_, raw) => l.(channelFlags := Some(raw))
    case Fhss => l.(fhss := true)
    case Mcs(k, fl, m) => l.(mcs := Some(McsHeader(k, fl, m)))
    case AmpduStatus(ref, fl, _, _) => l.(ampdu := Some((ref, fl)))
    case Vht => l.(vht := true)
    case Other(_) => l
  }

  /** The state decided by the last field of each kind: an absent kind leaves its
      part of the state at zero. */
  function FromLatest(host: Endianness, read: TsfRead, l: Latest): Scan
  {
    var cf: nat := if l.channelFlags.Some? then Le2Local16(host, l.channelFlags.value) as nat else 0;
    var fb: U8 := if l.flags.Some? then l.flags.value else 0;
    var sgi := if l.mcs.Some? then ToBit(SubValue(l.mcs.value.flags, McsSgi)) else 0;
    Scan(
      Checker(
        hasFhss := if l.fhss then 1 else 0,
        is2Ghz := if l.channelFlags.Some? then ToBit(SubValue(cf, Chan2Ghz)) else 0,
        is5Ghz := if l.channelFlags.Some? then ToBit(SubValue(cf, Chan5Ghz)) else 0,
        isOfdm := if l.channelFlags.Some? then ToBit(SubValue(cf, ChanOfdm)) else 0,
        isCck := if l.channelFlags.Some? then ToBit(SubValue(cf, ChanCck)) else 0,
        cckOfdm := if l.channelFlags.Some? then ToBit(SubValue(cf, ChanDyn)) else 0,
        hasVht := if l.vht then 1 else 0,
        shortPreamble := if l.flags.Some? then ToBit(SubValue(fb, FlagShortPreamble)) else 0,
        shortGi := sgi,
        fcsAtEnd := if l.flags.Some? then ToBit(SubValue(fb, FlagFcs)) else 0),
      flagsRtap := fb,
      mcsInfo := l.mcs,
      hasDataRate := l.rate.Some?,
      dataRate := if l.rate.Some? then l.rate.value else 0,
      hasTsf := l.tsft.Some?,
      tsf := if l.tsft.Some? then ReadTsf(read, host, l.tsft.value) else 0,
      hasAggregateInfo := l.ampdu.Some?,
      aggregateFlags := if l.ampdu.Some? then l.ampdu.value.1 else 0,
      aggregateId := if l.ampdu.Some? then Le2Local32(host, l.ampdu.value.0) else 0)
  }

  /** What the loop leaves behind, stated without the loop: each part of the
      state is decided by the LAST field of its kind, and the fields of other
      kinds do not matter. */
  function LastWins(host: Endianness, read: TsfRead, fs: seq<Field>): Scan
  {
    FromLatest(host, read, LatestOf(fs))
  }

  /** The loop's fold agrees with the last-field-wins description. */
  lemma {:induction false} SummarizeIsLastWins(host: Endianness, read: TsfRead, fs: seq<Field>)
    ensures Summarize(host, read, fs) == LastWins(host, read, fs)
  {
    if |fs| > 0 {
      var init, f := fs[..|fs| - 1], fs[|fs| - 1];
      assert fs == init + [f];
      calc {
        Summarize(host, read, fs);
        Step(host, read, Summarize(host, read, init), f);
        { SummarizeIsLastWins(host, read, init); }
        Step(host, read, FromLatest(host, read, LatestOf(init)), f);
        { RememberIsStep(host, read, LatestOf(init), f); }
        FromLatest(host, read, Remember(LatestOf(init), f));
        { LatestOfSnoc(init, f); }
        FromLatest(host, read, LatestOf(init + [f]));
      }
    }
  }

  lemma LastOfSnoc(fs: seq<Field>, f: Field, k: Kind)
    ensures LastOf(fs + [f], k) == if KindOf(f) == k then Some(f) else LastOf(fs, k)
  {
    assert (fs + [f])[..|fs|] == fs;
  }

  /** One more field replaces the last field of its kind and no other. */
  lemma LatestOfSnoc(fs: seq<Field>, f: Field)
    ensures LatestOf(fs + [f]) == Remember(LatestOf(fs), f)
  {
    LastOfSnoc(fs, f, KTsft);
    LastOfSnoc(fs, f, KFlags);
    LastOfSnoc(fs, f, KRate);
    LastOfSnoc(fs, f, KChannel);
    LastOfSnoc(fs, f, KFhss);
    LastOfSnoc(fs, f, KMcs);
    LastOfSnoc(fs, f, KAmpdu);
    LastOfSnoc(fs, f, KVht);
  }

  /** Recording a field and then reading the state off is one pass of the loop. */
  lemma RememberIsStep(host: Endianness, read: TsfRead, l: Latest, f: Field)
    ensures FromLatest(host, read, Remember(l, f)) == Step(host, read, FromLatest(host, read, l), f)
  {
    if f.Tsft? || f.Rate? || f.AmpduStatus? {
      RememberDescriptorField(host, read, l, f);
    } else if f.Channel? || f.Fhss? || f.Vht? {
      RememberCheckerField(host, read, l, f);
    } else {
      RememberFlagsField(host, read, l, f);
    }
  }

  lemma RememberDescriptorField(host: Endianness, read: TsfRead, l: Latest, f: Field)
    requires f.Tsft? || f.Rate? || f.AmpduStatus?
    ensures FromLatest(host, read, Remember(l, f)) == Step(host, read, FromLatest(host, read, l), f)
  {
  }

  lemma RememberCheckerField(host: Endianness, read: TsfRead, l: Latest, f: Field)
    requires f.Channel? || f.Fhss? || f.Vht?
    ensures FromLatest(host, read, Remember(l, f)) == Step(host, read, FromLatest(host, read, l), f)
  {
  }

  lemma RememberFlagsField(host: Endianness, read: TsfRead, l: Latest, f: Field)
    requires f.Flags? || f.Mcs? || f.Other?
    ensures FromLatest(host, read, Remember(l, f)) == Step(host, read, FromLatest(host, read, l), f)
  {
  }

  /** A field kind that occurs nowhere leaves its part of the state at zero; in
      particular the classifier sees FHSS and VHT exactly when such a field occurs. */
  lemma PresenceOfFields(host: Endianness, read: TsfRead, fs: seq<Field>)
    ensures Summarize(host, read, fs).checker.hasFhss == 1 <==> Fhss in fs
    ensures Summarize(host, read, fs).checker.hasVht == 1 <==> Vht in fs
    ensures HasMcs(Summarize(host, read, fs)) <==> exists i | 0 <= i < |fs| :: fs[i].Mcs?
    ensures Summarize(host, read, fs).hasTsf <==> exists i | 0 <= i < |fs| :: fs[i].Tsft?
    ensures Summarize(host, read, fs).hasDataRate <==> exists i | 0 <= i < |fs| :: fs[i].Rate?
  {
    var l := LatestOf(fs);
    SummarizeIsLastWins(host, read, fs);
    assert Summarize(host, read, fs) == FromLatest(host, read, l);
    FromLatestPresence(host, read, l);
    OccursIff(fs, Fhss, KFhss);
    OccursIff(fs, Vht, KVht);
    assert l.fhss <==> Fhss in fs;
    assert l.vht <==> Vht in fs;
    PayloadOccurs(fs);
  }

  /** Read off the last fields, each part of the state is set exactly when a field
      of its kind was recorded, and the short-preamble bit always agrees with the
      FLAGS byte, which is 0 when there is no FLAGS field. */
  lemma FromLatestPresence(host: Endianness, read: TsfRead, l: Latest)
    ensures var s := FromLatest(host, read, l);
      (s.checker.hasFhss == 1 <==> l.fhss) &&
      (s.checker.hasVht == 1 <==> l.vht) &&
      (HasMcs(s) <==> l.mcs.Some?) &&
      (s.hasTsf <==> l.tsft.Some?) &&
      (s.hasDataRate <==> l.rate.Some?) &&
      (l.rate.None? ==> s.dataRate == 0) &&
      (l.channelFlags.None? ==>
         s.checker.isCck == 0 && s.checker.is2Ghz == 0 && s.checker.is5Ghz == 0 &&
         s.checker.isOfdm == 0 && s.checker.cckOfdm == 0) &&
      s.checker.shortPreamble == ToBit(SubValue(s.flagsRtap, FlagShortPreamble))
  {
    if l.flags.None? {
      assert SubValue(0, FlagShortPreamble) == 0;
    }
  }

  /** A field kind with a payload is recorded exactly when a field of that kind
      occurs. */
  lemma PayloadOccurs(fs: seq<Field>)
    ensures LatestOf(fs).mcs.Some? <==> exists i | 0 <= i < |fs| :: fs[i].Mcs?
    ensures LatestOf(fs).tsft.Some? <==> exists i | 0 <= i < |fs| :: fs[i].Tsft?
    ensures LatestOf(fs).rate.Some? <==> exists i | 0 <= i < |fs| :: fs[i].Rate?
    ensures LatestOf(fs).channelFlags.Some? <==> exists i | 0 <= i < |fs| :: fs[i].Channel?
  {
    LastOfSpec(fs, KMcs);
    LastOfSpec(fs, KTsft);
    LastOfSpec(fs, KRate);
    LastOfSpec(fs, KChannel);
    forall i | 0 <= i < |fs|
      ensures (KindOf(fs[i]) == KMcs <==> fs[i].Mcs?) && (KindOf(fs[i]) == KTsft <==> fs[i].Tsft?)
      ensures (KindOf(fs[i]) == KRate <==> fs[i].Rate?) && (KindOf(fs[i]) == KChannel <==> fs[i].Channel?)
    {
    }
  }

  /** A payload-free field occurs exactly when a field of its kind does. */
  lemma OccursIff(fs: seq<Field>, f: Field, k: Kind)
    requires f == Fhss || f == Vht
    requires KindOf(f) == k
    ensures LastOf(fs, k).Some? <==> f in fs
  {
    LastOfSpec(fs, k);
    if f in fs {
      var i :| 0 <= i < |fs| && fs[i] == f;
      assert KindOf(fs[i]) == k;
    }
    if LastOf(fs, k).Some? {
      var i :| 0 <= i < |fs| && KindOf(fs[i]) == k;
      assert fs[i] == f;
    }
  }

  // ---------------------------------------------------------------------------
  // Properties of the classification

  /** Each `has_X` of the 802.11n descriptor is bit X of `known`. */
  lemma HtFromMcsReadsKnownBits(m: McsHeader)
    ensures var ht := HtFromMcs(m);
      (ht.hasBandwidth <==> BitAt(m.known, 0) == 1) &&
      (ht.hasMcsIndex <==> BitAt(m.known, 1) == 1) &&
      (ht.hasShortGi <==> BitAt(m.known, 2) == 1) &&
      (ht.hasGreenfield <==> BitAt(m.known, 3) == 1) &&
      (ht.hasFec <==> BitAt(m.known, 4) == 1) &&
      (ht.hasStbcStreams <==> BitAt(m.known, 5) == 1) &&
      (ht.hasNess <==> BitAt(m.known, 6) == 1)
  {
    McsMasks();
    SubValueSingleBit(m.known, McsHaveBw, 0);
    SubValueSingleBit(m.known, McsHaveMcs, 1);
    SubValueSingleBit(m.known, McsHaveGi, 2);
    SubValueSingleBit(m.known, McsHaveFmt, 3);
    SubValueSingleBit(m.known, McsHaveFec, 4);
    SubValueSingleBit(m.known, McsHaveStbc, 5);
    SubValueSingleBit(m.known, McsHaveNess, 6);
  }

  /** A value of the 802.11n descriptor is read only when its `known` bit is set,
      and is 0 otherwise. One-bit values are their bit of `flags`. The two-bit
      bandwidth and STBC fields go through get_sub_value, which reads the field
      value 2 as 1: bandwidth reads 0, 1, 1, 3 for the codes 20, 40, 20L, 20U,
      and the STBC stream count 0, 1, 1, 3. */
  lemma HtFromMcsReadsFlags(m: McsHeader)
    ensures var ht := HtFromMcs(m);
      ht.mcsIndex == (if ht.hasMcsIndex then m.mcs else 0) &&
      ht.bandwidth == (if ht.hasBandwidth then [0, 1, 1, 3][m.flags % 4] else 0) &&
      ht.shortGi == (if ht.hasShortGi then BitAt(m.flags, 2) else 0) &&
      ht.greenfield == (if ht.hasGreenfield then BitAt(m.flags, 3) else 0) &&
      ht.fec == (if ht.hasFec then BitAt(m.flags, 4) else 0) &&
      ht.stbcStreams == (if ht.hasStbcStreams then [0, 1, 1, 3][Shr(m.flags, 5) % 4] else 0) &&
      ht.ness == (if ht.hasNess then BitAt(m.flags, 7) else 0)
  {
    HtFromMcsReadsOneBitFlags(m);
    HtFromMcsReadsTwoBitFlags(m);
  }

  lemma HtFromMcsReadsOneBitFlags(m: McsHeader)
    ensures var ht := HtFromMcs(m);
      ht.shortGi == (if ht.hasShortGi then BitAt(m.flags, 2) else 0) &&
      ht.greenfield == (if ht.hasGreenfield then BitAt(m.flags, 3) else 0) &&
      ht.fec == (if ht.hasFec then BitAt(m.flags, 4) else 0) &&
      ht.ness == (if ht.hasNess then BitAt(m.flags, 7) else 0)
  {
    McsMasks();
    SubValueSingleBit(m.flags, McsSgi, 2);
    SubValueSingleBit(m.flags, McsFmtGf, 3);
    SubValueSingleBit(m.flags, McsFecLdpc, 4);
    SubValueSingleBit(m.flags, McsNess, 7);
  }

  lemma HtFromMcsReadsTwoBitFlags(m: McsHeader)
    ensures var ht := HtFromMcs(m);
      ht.bandwidth == (if ht.hasBandwidth then [0, 1, 1, 3][m.flags % 4] else 0) &&
      ht.stbcStreams == (if ht.hasStbcStreams then [0, 1, 1, 3][Shr(m.flags, 5) % 4] else 0)
  {
    McsMasks();
    SubValueTwoBitField(m.flags, McsBwMask, 0);
    SubValueTwoBitField(m.flags, McsStbcMask, 5);
  }

  /** The MCS masks are the shifts `1 << k` and `3 << k` they stand for. */
  lemma McsMasks()
    ensures McsHaveBw == Shl(1, 0) && McsHaveMcs == Shl(1, 1) && McsHaveGi == Shl(1, 2)
    ensures McsHaveFmt == Shl(1, 3) && McsHaveFec == Shl(1, 4) && McsHaveStbc == Shl(1, 5)
    ensures McsHaveNess == Shl(1, 6) && McsSgi == Shl(1, 2) && McsFmtGf == Shl(1, 3)
    ensures McsFecLdpc == Shl(1, 4) && McsNess == Shl(1, 7)
    ensures McsBwMask == Shl(3, 0) && McsStbcMask == Shl(3, 5)
  {
  }

  /** A classified 802.11n frame never has more than one extension stream, and its
      bandwidth is never the 20L code 2. */
  lemma ClassifiedHtRanges(s: Scan)
    requires Classify(s).phy.Phy11n?
    ensures Classify(s).phy.ht.ness <= 1
    ensures Classify(s).phy.ht.bandwidth in {0, 1, 3}
    ensures Classify(s).phy.ht.stbcStreams in {0, 1, 3}
  {
    HtFromMcsReadsFlags(s.mcsInfo.value);
  }

  /** The precedence chain picks exactly one PHY: FHSS first, then 802.11b (a CCK
      channel or a DSSS rate), 802.11a (5 GHz OFDM without MCS or VHT), 802.11g
      (2.4 GHz OFDM or dynamic CCK-OFDM without MCS, or an OFDM rate), 802.11n
      (MCS without VHT), 802.11ac (VHT); otherwise unknown. */
  lemma ClassifyPrecedence(s: Scan)
    ensures var c, phy := s.checker, Classify(s).phy;
      var b := c.hasFhss == 0 && (c.isCck == 1 || IsDsssRate(s.dataRate));
      var a := c.hasFhss == 0 && !b && c.is5Ghz == 1 && c.isOfdm == 1 && !HasMcs(s) && c.hasVht == 0;
      var g := c.hasFhss == 0 && !b && !a &&
        ((c.is2Ghz == 1 && (c.isOfdm == 1 || c.cckOfdm == 1) && !HasMcs(s)) ||
         (s.hasDataRate && IsOfdmRate(s.dataRate)));
      (phy.Phy11Fhss? <==> c.hasFhss == 1) &&
      (phy.Phy11b? <==> b) &&
      (phy.Phy11a? <==> a) &&
      (phy.Phy11g? <==> g) &&
      (phy.Phy11n? <==> c.hasFhss == 0 && !b && !g && HasMcs(s) && c.hasVht == 0) &&
      (phy.Phy11ac? <==> c.hasFhss == 0 && !b && !g && c.hasVht == 1) &&
      !phy.Phy11Ir? && !phy.Phy11Dsss? && !phy.Phy11ad?
  {
  }

  /** From the fields themselves: an FHSS field decides 802.11 FHSS; a VHT field
      rules out 802.11a and 802.11n; an MCS field, with no FHSS, VHT, CCK channel or
      rate field, gives 802.11n; a header with no fields at all is unknown. */
  lemma ClassifyFields(host: Endianness, read: TsfRead, fs: seq<Field>)
    ensures Classify(Summarize(host, read, fs)).phy.Phy11Fhss? <==> Fhss in fs
    ensures Vht in fs ==> !Classify(Summarize(host, read, fs)).phy.Phy11a? && !Classify(Summarize(host, read, fs)).phy.Phy11n?
    ensures (exists i | 0 <= i < |fs| :: fs[i].Mcs?) && Fhss !in fs && Vht !in fs
            && (forall i | 0 <= i < |fs| :: !fs[i].Rate? && !fs[i].Channel?)
            ==> Classify(Summarize(host, read, fs)).phy.Phy11n?
    ensures fs == [] ==> Classify(Summarize(host, read, fs)).phy == PhyUnknown
  {
    SummarizeIsLastWins(host, read, fs);
    FromLatestPresence(host, read, LatestOf(fs));
    OccursIff(fs, Fhss, KFhss);
    OccursIff(fs, Vht, KVht);
    PayloadOccurs(fs);
    ClassifyByPresence(Summarize(host, read, fs));
  }

  /** The classification from the checker flags alone: FHSS decides, VHT rules
      out 802.11a and 802.11n, and an MCS field with nothing else set gives
      802.11n. */
  lemma ClassifyByPresence(s: Scan)
    ensures Classify(s).phy.Phy11Fhss? <==> s.checker.hasFhss == 1
    ensures s.checker.hasVht == 1 ==> !Classify(s).phy.Phy11a? && !Classify(s).phy.Phy11n?
    ensures HasMcs(s) && s.checker.hasFhss == 0 && s.checker.hasVht == 0 && !s.hasDataRate &&
            s.dataRate == 0 && s.checker.isCck == 0 && s.checker.is2Ghz == 0
            ==> Classify(s).phy == Phy11n(HtFromMcs(s.mcsInfo.value))
    ensures s == InitialScan ==> Classify(s).phy == PhyUnknown
  {
  }

  /** 802.11b reports a short preamble only when the FLAGS byte is non-zero, and
      then it is bit 1 of that byte; 802.11g reports "short preamble" as 1
      whenever the FLAGS byte is non-zero, whatever its bit 1. */
  lemma ClassifyPreambleFlags(s: Scan, host: Endianness, read: TsfRead, fs: seq<Field>)
    requires s == Summarize(host, read, fs)
    ensures Classify(s).phy.Phy11b? ==>
      (Classify(s).phy.hasShortPreamble <==> s.flagsRtap != 0) &&
      Classify(s).phy.shortPreamble == (if s.flagsRtap != 0 then BitAt(s.flagsRtap, 1) else 0)
    ensures Classify(s).phy.Phy11g? ==>
      (Classify(s).phy.hasShortPreamble <==> s.flagsRtap != 0) &&
      Classify(s).phy.shortPreambleByte == (if s.flagsRtap != 0 then 1 else 0)
  {
    SummarizeIsLastWins(host, read, fs);
    FromLatestPresence(host, read, LatestOf(fs));
    ClassifyPreambleBit(s);
  }

  lemma ClassifyPreambleBit(s: Scan)
    requires s.checker.shortPreamble == ToBit(SubValue(s.flagsRtap, FlagShortPreamble))
    ensures Classify(s).phy.Phy11b? ==>
      (Classify(s).phy.hasShortPreamble <==> s.flagsRtap != 0) &&
      Classify(s).phy.shortPreamble == (if s.flagsRtap != 0 then BitAt(s.flagsRtap, 1) else 0)
    ensures Classify(s).phy.Phy11g? ==>
      (Classify(s).phy.hasShortPreamble <==> s.flagsRtap != 0) &&
      Classify(s).phy.shortPreambleByte == (if s.flagsRtap != 0 then 1 else 0)
  {
    assert Shl(1, 1) == 2;
    SubValueSingleBit(s.flagsRtap, FlagShortPreamble, 1);
  }

  // ---------------------------------------------------------------------------
  // The TSF read, as written and corrected

  /** As written, the TSF is the first octet only: it can never be all ones, so the
      check for the all-ones TSF of QCA hardware never holds, and two TSFs that
      share their first octet read the same however they differ above it. */
  lemma TsfAsWrittenLosesOctets(host: Endianness, o1: Octets8, o2: Octets8)
    ensures TsfAsWritten(host, o1) != 0xffff_ffff_ffff_ffff
    ensures o1[0] == o2[0] ==> TsfAsWritten(host, o1) == TsfAsWritten(host, o2)
  {
    FirstOctetNotAllOnes(host, o1[0]);
  }

  lemma FirstOctetNotAllOnes(host: Endianness, b: bv8)
    ensures Le2Local64(host, b as bv64) != 0xffff_ffff_ffff_ffff
  {
    var w := b as bv64;
    if host == BigEndian {
      Swap64Bytes(w);
      assert Byte64(w, 7) == 0;
    } else {
      assert w <= 0xff;
    }
  }

  /** The full 64-bit read tells every two TSFs apart and reads eight 0xff octets
      as the all-ones TSF. */
  lemma TsfValueKeepsOctets(host: Endianness, o1: Octets8, o2: Octets8)
    ensures TsfValue(host, o1) == TsfValue(host, o2) <==> o1 == o2
    ensures TsfValue(host, [0xff, 0xff, 0xff, 0xff, 0xff, 0xff, 0xff, 0xff]) == 0xffff_ffff_ffff_ffff
  {
    LeValue64Bytes(o1);
    LeValue64Bytes(o2);
    if TsfValue(host, o1) == TsfValue(host, o2) {
      assert forall i | 0 <= i < 8 :: o1[i] == o2[i] by {
        assert o1[0] == o2[0] && o1[1] == o2[1] && o1[2] == o2[2] && o1[3] == o2[3];
        assert o1[4] == o2[4] && o1[5] == o2[5] && o1[6] == o2[6] && o1[7] == o2[7];
      }
    }
    var ones: Octets8 := [0xff, 0xff, 0xff, 0xff, 0xff, 0xff, 0xff, 0xff];
    LeValue64Bytes(ones);
    Bytes64Determine(LeValue64(ones), 0xffff_ffff_ffff_ffff);
  }
}
