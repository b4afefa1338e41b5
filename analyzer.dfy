/** The cross-frame part of packet_analyzer.c: the frame length, the A-MPDU
    detection of `in_ampdu`, the retroactive correction of the first subframe of
    an aggregate and the airtime accumulator. The file-scope statics and
    `args->airtime` become the fields of `AirtimeAnalyzer`; `Process` states
    what one call of `got_packet` does to them. */
module Analyzer {
  import opened CInt
  import opened Bits
  import opened Endian
  import opened Ieee80211
  import opened DurationCalculation
  import opened Classifier

  /** The all-ones TSF that QCA hardware reports on all subframes but the last. */
  const AllOnesTsf: bv64 := 0xffff_ffff_ffff_ffff

  /** One captured packet: the captured length from the pcap header, the raw
      `it_len` word of the radiotap header and what the radiotap iterator yields. */
  datatype Capture = Capture(wireLen: U32, radiotapLen: bv16, walk: RadiotapWalk)

  /** The statics `prev_frame`, `current_aggregate`, `is_first_frame`,
      `is_second_subframe`, and the caller's `airtime`. */
  datatype Session = Session(
    prev: PreviousFrame,
    currentAggregate: bool,
    isFirstFrame: bool,
    isSecondSubframe: bool,
    airtime: U32)

  /** The statics as the program starts, with the caller's initial airtime. */
  function StartSession(airtime: U32): Session
  {
    Session(InitialPreviousFrame, false, true, false, airtime)
  }

  /** The test of `in_ampdu`: an 802.11n or 802.11ac frame of the same PHY kind
      as the previous one, both with a TSF, and either equal TSFs (Broadcom), a
      zero TSF after a non-zero one outside an aggregate (Intel), or an all-ones
      previous TSF (QCA). */
  predicate AmpduMatch(s: Session, h: PhyHeader)
  {
    (h.phy.Phy11n? || h.phy.Phy11ac?) && Tag(h.phy) == Tag(s.prev.phy) &&
    h.hasTsf && s.prev.hasTsf &&
    (h.tsf == s.prev.tsf || (!s.currentAggregate && s.prev.tsf != 0 && h.tsf == 0) ||
     s.prev.tsf == AllOnesTsf)
  }

  /** The flags after `in_ampdu`: a match makes the frame part of the current
      aggregate, and the second subframe when the aggregate was not yet open; a
      mismatch closes the aggregate and leaves `is_second_subframe` alone. */
  function AfterInAmpdu(s: Session, h: PhyHeader): Session
  {
    if AmpduMatch(s, h) then s.(currentAggregate := true, isSecondSubframe := !s.currentAggregate)
    else s.(currentAggregate := false)
  }

  /** `header->len - rtap_hdr_len`, plus the 4 FCS octets when the capture does
      not include them, on `unsigned int`. */
  function BaseLength(wireLen: U32, radiotapLen: U16, fcsAtEnd: Bit): U32
  {
    var len := Sub32(wireLen, radiotapLen);
    if fcsAtEnd == 0 then Add32(len, 4) else len
  }

  /** The descriptor the classifier builds for a capture. */
  function Header(host: Endianness, read: TsfRead, c: Capture): PhyHeader
  {
    Classify(Summarize(host, read, c.walk.fields))
  }

  /** The base length of a capture, with `it_len` converted to the host order. */
  function FrameLength(host: Endianness, read: TsfRead, c: Capture): U32
  {
    BaseLength(c.wireLen, Le2Local16(host, c.radiotapLen) as nat,
               Summarize(host, read, c.walk.fields).checker.fcsAtEnd)
  }

  /** What one call does: the new statics, the recomputed duration of the
      previous frame if the call corrected it, and the duration added for this
      frame if the call got that far. */
  datatype Outcome = Outcome(session: Session, recounted: Option<U32>, counted: Option<U32>)

  /** The end of a successful call: the frame's duration is added to the airtime
      and the frame becomes the previous frame. */
  function Count(s: Session, h: PhyHeader, len: U32, inAggregate: bool, recounted: Option<U32>): Outcome
  {
    var d := Duration(h, len, inAggregate, false);
    Outcome(s.(prev := PreviousFrame(h.hasTsf, h.tsf, h.phy, len, d), airtime := Add32(s.airtime, d)),
            recounted, Some(d))
  }

  /** One call of `got_packet` on the statics s. */
  function Process(s: Session, host: Endianness, read: TsfRead, c: Capture): Outcome
  {
    var s1 := s.(isFirstFrame := false);
    if c.walk.status != EndOfFields then Outcome(s1, None, None)
    else Handle(s1, Header(host, read, c), FrameLength(host, read, c))
  }

  /** The rest of the call, once the frame is classified as h with base length
      len: the A-MPDU test and correction for 802.11n, then the count. */
  function Handle(s: Session, h: PhyHeader, len: U32): Outcome
  {
    if h.phy.Phy11n? && !s.isFirstFrame then
      var s2 := AfterInAmpdu(s, h);
      if AmpduMatch(s, h) then
        var aggregateLength := Pad(Add32(len, 4));
        if s2.isSecondSubframe then
          var pl := Add32(Pad(s2.prev.prevLength), 4);
          var pd := Duration(h, pl, true, true);
          var s3 := s2.(prev := s2.prev.(prevLength := pl, duration := pd),
                        airtime := Add32(Sub32(s2.airtime, s2.prev.duration), pd));
          Count(s3, h, aggregateLength, true, Some(pd))
        else Count(s2, h, aggregateLength, true, None)
      else Count(s2, h, len, false, None)
    else Count(s, h, len, false, None)
  }

  function Next(s: Session, host: Endianness, read: TsfRead, c: Capture): Session
  {
    Process(s, host, read, c).session
  }

  /** The statics and the accumulator of packet_analyzer.c. */
  class AirtimeAnalyzer {
    const host: Endianness
    var prevFrame: PreviousFrame
    var currentAggregate: bool
    var isFirstFrame: bool
    var isSecondSubframe: bool
    var airtime: U32

    function State(): Session
      reads this
    {
      Session(prevFrame, currentAggregate, isFirstFrame, isSecondSubframe, airtime)
    }

    constructor (host: Endianness, airtime: U32)
      ensures this.host == host
      ensures State() == StartSession(airtime)
    {
      this.host := host;
      prevFrame := InitialPreviousFrame;
      currentAggregate := false;
      isFirstFrame := true;
      isSecondSubframe := false;
      this.airtime := airtime;
    }

    /** `in_ampdu`. */
    method InAmpdu(h: PhyHeader) returns (r: bool)
      modifies this
      ensures r == AmpduMatch(old(State()), h)
      ensures State() == AfterInAmpdu(old(State()), h)
    {
      if (h.phy.Phy11n? || h.phy.Phy11ac?) && Tag(h.phy) == Tag(prevFrame.phy) &&
         h.hasTsf && prevFrame.hasTsf &&
         (h.tsf == prevFrame.tsf || (!currentAggregate && prevFrame.tsf != 0 && h.tsf == 0) ||
          prevFrame.tsf == AllOnesTsf)
      {
        if !currentAggregate {
          isSecondSubframe := true;
        } else {
          isSecondSubframe := false;
        }
        currentAggregate := true;
        return true;
      }
      currentAggregate := false;
      return false;
    }

    /** `got_packet`, without the dump and the logging. */
    method ProcessFrame(c: Capture)
      modifies this
      ensures State() == Next(old(State()), host, FirstOctet, c)
    {
      if isFirstFrame {
        isFirstFrame := false;
      }
      var scan := ScanFields(host, FirstOctet, c.walk.fields);
      if c.walk.status != EndOfFields {
        return;
      }
      var frameLength := Sub32(c.wireLen, Le2Local16(host, c.radiotapLen) as nat);
      if scan.checker.fcsAtEnd == 0 {
        frameLength := Add32(frameLength, 4);
      }
      var h := Classify(scan);
      assert frameLength == FrameLength(host, FirstOctet, c) && h == Header(host, FirstOctet, c);
      HandleFrame(h, frameLength);
    }

    /** The part of `got_packet` after the classification: the A-MPDU test and
        correction for 802.11n, the count and the new previous frame. */
    method HandleFrame(h: PhyHeader, len: U32)
      modifies this
      ensures State() == Handle(old(State()), h, len).session
    {
      var frameLength := len;
      var inAggregate := false;
      if h.phy.Phy11n? {
        if !isFirstFrame {
          inAggregate := InAmpdu(h);
          if inAggregate {
            frameLength := Add32(frameLength, 4);
            if isSecondSubframe {
              prevFrame := prevFrame.(prevLength := Pad(prevFrame.prevLength));
              prevFrame := prevFrame.(prevLength := Add32(prevFrame.prevLength, 4));
              airtime := Sub32(airtime, prevFrame.duration);
              prevFrame := prevFrame.(duration := Duration(h, prevFrame.prevLength, true, true));
              airtime := Add32(airtime, prevFrame.duration);
            }
            frameLength := Pad(frameLength);
          }
        }
      }
      var duration := Duration(h, frameLength, inAggregate, false);
      prevFrame := prevFrame.(duration := duration, prevLength := frameLength);
      airtime := Add32(airtime, duration);
      prevFrame := prevFrame.(hasTsf := h.hasTsf, tsf := h.tsf, phy := h.phy);
    }
  }

  // ---------------------------------------------------------------------------
  // Properties of one call

  /** A radiotap walk that ends with any status but -ENOENT stops the call once
      the first-frame flag is cleared: nothing is counted and the airtime, the
      previous frame and the aggregate flags are unchanged. */
  lemma FailedWalkCountsNothing(s: Session, host: Endianness, read: TsfRead, c: Capture)
    requires c.walk.status != EndOfFields
    ensures Next(s, host, read, c) == s.(isFirstFrame := false)
    ensures Process(s, host, read, c).counted.None? && Process(s, host, read, c).recounted.None?
  {
  }

  /** After the A-MPDU step the previous frame is this frame: its PHY, its TSF,
      its final length (the base length, or for an aggregate subframe the base
      length plus the delimiter, padded) and its duration, which is what was
      counted. */
  lemma HandleRecordsFrame(s: Session, h: PhyHeader, len: U32)
    requires !s.isFirstFrame
    ensures var inAggregate := h.phy.Phy11n? && AmpduMatch(s, h);
      var o := Handle(s, h, len);
      !o.session.isFirstFrame &&
      o.session.prev.phy == h.phy && o.session.prev.hasTsf == h.hasTsf && o.session.prev.tsf == h.tsf &&
      o.session.prev.prevLength == (if inAggregate then Pad(Add32(len, 4)) else len) &&
      o.session.prev.duration == Duration(h, o.session.prev.prevLength, inAggregate, false) &&
      o.counted == Some(o.session.prev.duration)
  {
  }

  /** The same for a whole call whose radiotap walk succeeded. */
  lemma SuccessfulCallRecordsFrame(s: Session, host: Endianness, read: TsfRead, c: Capture)
    requires c.walk.status == EndOfFields
    ensures var h, len := Header(host, read, c), FrameLength(host, read, c);
      var inAggregate := h.phy.Phy11n? && AmpduMatch(s, h);
      var o := Process(s, host, read, c);
      !o.session.isFirstFrame &&
      o.session.prev.phy == h.phy && o.session.prev.hasTsf == h.hasTsf && o.session.prev.tsf == h.tsf &&
      o.session.prev.prevLength == (if inAggregate then Pad(Add32(len, 4)) else len) &&
      o.session.prev.duration == Duration(h, o.session.prev.prevLength, inAggregate, false) &&
      o.counted == Some(o.session.prev.duration)
  {
    var s1 := s.(isFirstFrame := false);
    HandleRecordsFrame(s1, Header(host, read, c), FrameLength(host, read, c));
    assert AmpduMatch(s1, Header(host, read, c)) <==> AmpduMatch(s, Header(host, read, c));
  }

  /** The base length is the captured length less the radiotap header, plus 4
      when the FCS is not captured (for lengths where nothing wraps). */
  lemma BaseLengthValue(wireLen: U32, radiotapLen: U16, fcsAtEnd: Bit)
    requires radiotapLen <= wireLen < Two32 - 4
    ensures BaseLength(wireLen, radiotapLen, fcsAtEnd) ==
      wireLen - radiotapLen + (if fcsAtEnd == 0 then 4 else 0)
  {
  }

  /** An aggregate subframe's length gains the 4-octet delimiter and is padded
      to a multiple of 4; on the second subframe (the aggregate was not open)
      the first subframe's length is padded and gains its delimiter the same way. */
  lemma HandleAggregateLengths(s: Session, h: PhyHeader, len: U32)
    requires !s.isFirstFrame && h.phy.Phy11n? && AmpduMatch(s, h)
    requires len < Two32 - 8 && s.prev.prevLength < Two32 - 8
    ensures var o := Handle(s, h, len);
      o.session.prev.prevLength % 4 == 0 &&
      len + 4 < o.session.prev.prevLength <= len + 8 &&
      o.session.currentAggregate &&
      (o.recounted.Some? <==> !s.currentAggregate)
    ensures var pl := Add32(Pad(s.prev.prevLength), 4);
      !s.currentAggregate ==> pl % 4 == 0 && s.prev.prevLength + 4 < pl <= s.prev.prevLength + 8
  {
    HandleRecordsFrame(s, h, len);
    DelimiterThenPad(len);
    PadThenDelimiter(s.prev.prevLength);
  }

  /** A subframe: 4 delimiter octets, then padding to a multiple of 4. */
  lemma DelimiterThenPad(len: U32)
    requires len < Two32 - 8
    ensures Pad(Add32(len, 4)) % 4 == 0 && len + 4 < Pad(Add32(len, 4)) <= len + 8
  {
    var x := Add32(len, 4);
    assert x == len + 4;
    PadIsNextMultipleOfFour(x);
  }

  /** The first subframe, corrected: padding, then its 4 delimiter octets. */
  lemma PadThenDelimiter(len: U32)
    requires len < Two32 - 8
    ensures Add32(Pad(len), 4) % 4 == 0 && len + 4 < Add32(Pad(len), 4) <= len + 8
  {
    var p := Pad(len);
    PadIsNextMultipleOfFour(len);
    assert Add32(p, 4) == p + 4;
  }

  /** The aggregate flags change only on frames classified 802.11n, and the first
      subframe is corrected only on the second subframe of an aggregate, after a
      frame with a TSF. */
  lemma AggregateStateOnlyFrom11n(s: Session, host: Endianness, read: TsfRead, c: Capture)
    ensures var n := Next(s, host, read, c);
      (n.currentAggregate != s.currentAggregate || n.isSecondSubframe != s.isSecondSubframe) ==>
        c.walk.status == EndOfFields && Header(host, read, c).phy.Phy11n?
    ensures var o := Process(s, host, read, c);
      o.recounted.Some? ==>
        s.prev.hasTsf && !s.currentAggregate && o.session.currentAggregate && o.session.isSecondSubframe
  {
    if c.walk.status == EndOfFields {
      HandleFlags(s.(isFirstFrame := false), Header(host, read, c), FrameLength(host, read, c));
    }
  }

  lemma HandleFlags(s: Session, h: PhyHeader, len: U32)
    ensures var o := Handle(s, h, len);
      (o.session.currentAggregate != s.currentAggregate || o.session.isSecondSubframe != s.isSecondSubframe) ==>
        h.phy.Phy11n?
    ensures var o := Handle(s, h, len);
      o.recounted.Some? ==>
        s.prev.hasTsf && !s.currentAggregate && o.session.currentAggregate && o.session.isSecondSubframe
  {
  }

  /** How one call moves the airtime, on `unsigned int`: by the frame's
      duration, and on a second subframe first down by the previous frame's old
      duration and up by its recomputed one. Nothing moves when nothing is
      counted. */
  predicate Accounted(s: Session, o: Outcome)
  {
    (o.counted.None? ==> o.recounted.None? && o.session.airtime == s.airtime && o.session.prev == s.prev) &&
    (o.counted.Some? ==> o.session.prev.duration == o.counted.value) &&
    (o.counted.Some? && o.recounted.None? ==> o.session.airtime == (s.airtime + o.counted.value) % Two32) &&
    (o.recounted.Some? ==>
       o.counted.Some? && s.prev.hasTsf &&
       o.session.airtime == (s.airtime - s.prev.duration + o.recounted.value + o.counted.value) % Two32)
  }

  lemma HandleAccounting(s: Session, h: PhyHeader, len: U32)
    ensures Accounted(s, Handle(s, h, len))
    ensures var o := Handle(s, h, len); o.recounted.Some? ==> o.recounted.value == Duration(h, Add32(Pad(s.prev.prevLength), 4), true, true)
  {
    if h.phy.Phy11n? && !s.isFirstFrame && AmpduMatch(s, h) && !s.currentAggregate {
      SecondSubframeAccounting(s, h, len);
    } else {
      HandleFlags(s, h, len);
    }
  }

  lemma SecondSubframeAccounting(s: Session, h: PhyHeader, len: U32)
    requires h.phy.Phy11n? && !s.isFirstFrame && AmpduMatch(s, h) && !s.currentAggregate
    ensures Accounted(s, Handle(s, h, len))
    ensures var o := Handle(s, h, len); o.recounted.Some? ==> o.recounted.value == Duration(h, Add32(Pad(s.prev.prevLength), 4), true, true)
  {
    var o := Handle(s, h, len);
    var pd := Duration(h, Add32(Pad(s.prev.prevLength), 4), true, true);
    var d := Duration(h, Pad(Add32(len, 4)), true, false);
    assert o.recounted == Some(pd) && o.counted == Some(d);
    assert o.session.airtime == Add32(Add32(Sub32(s.airtime, s.prev.duration), pd), d);
    CorrectionWraps(s.airtime, s.prev.duration, pd, d);
  }

  /** Taking a duration out and two in on `unsigned int` is the exact sum, wrapped. */
  lemma CorrectionWraps(a: U32, p: U32, r: U32, d: U32)
    ensures Add32(Add32(Sub32(a, p), r), d) == (a - p + r + d) % Two32
  {
    ModAdd(a - p, r);
    ModAdd(a - p + r, d);
  }

  lemma CallAccounting(s: Session, host: Endianness, read: TsfRead, c: Capture)
    ensures Accounted(s, Process(s, host, read, c))
    ensures Process(s, host, read, c).counted.Some? <==> c.walk.status == EndOfFields
    ensures var o := Process(s, host, read, c);
      o.recounted.Some? ==> o.recounted.value == Duration(Header(host, read, c), Add32(Pad(s.prev.prevLength), 4), true, true)
  {
    if c.walk.status == EndOfFields {
      var s1, h, len := s.(isFirstFrame := false), Header(host, read, c), FrameLength(host, read, c);
      ProcessIsHandle(s, host, read, c);
      HandleAccounting(s1, h, len);
      HandleCounts(s1, h, len);
      AccountedIgnoresFirstFlag(s, s1, Handle(s1, h, len));
    }
  }

  lemma ProcessIsHandle(s: Session, host: Endianness, read: TsfRead, c: Capture)
    requires c.walk.status == EndOfFields
    ensures Process(s, host, read, c) == Handle(s.(isFirstFrame := false), Header(host, read, c), FrameLength(host, read, c))
  {
  }

  lemma AccountedIgnoresFirstFlag(s: Session, s1: Session, o: Outcome)
    requires s1 == s.(isFirstFrame := false) && Accounted(s1, o)
    ensures Accounted(s, o)
  {
  }

  /** Every frame handled is counted. */
  lemma HandleCounts(s: Session, h: PhyHeader, len: U32)
    ensures Handle(s, h, len).counted.Some?
  {
  }

  /** The first captured frame is never part of an aggregate: the zeroed
      previous frame has the unknown PHY, so the A-MPDU test fails. */
  lemma FirstFrameStandsAlone(a: U32, host: Endianness, read: TsfRead, c: Capture)
    ensures var o := Process(StartSession(a), host, read, c);
      !o.session.currentAggregate && !o.session.isSecondSubframe && !o.session.isFirstFrame &&
      o.recounted.None? &&
      (o.counted.Some? ==> o.session.airtime == Add32(a, o.counted.value) &&
                           o.session.prev.prevLength == FrameLength(host, read, c))
  {
    var s1 := StartSession(a).(isFirstFrame := false);
    assert !AmpduMatch(s1, Header(host, read, c));
  }

  // ---------------------------------------------------------------------------
  // A capture, frame by frame

  /** The statics after the calls for caps, in order. */
  function Run(host: Endianness, read: TsfRead, s: Session, caps: seq<Capture>): Session
  {
    if |caps| == 0 then s
    else Next(Run(host, read, s, caps[..|caps| - 1]), host, read, caps[|caps| - 1])
  }

  function Sum(ds: seq<U32>): int
  {
    if |ds| == 0 then 0 else Sum(ds[..|ds| - 1]) + ds[|ds| - 1]
  }

  /** The per-frame durations after one call: a corrected first subframe
      replaces the last entry, a counted frame adds one. */
  function Record(ds: seq<U32>, o: Outcome): seq<U32>
  {
    var corrected := if o.recounted.Some? && |ds| > 0 then ds[..|ds| - 1] + [o.recounted.value] else ds;
    if o.counted.Some? then corrected + [o.counted.value] else corrected
  }

  /** The final duration of every frame of caps that was counted. */
  function Ledger(host: Endianness, read: TsfRead, s: Session, caps: seq<Capture>): seq<U32>
  {
    if |caps| == 0 then []
    else
      var init := caps[..|caps| - 1];
      Record(Ledger(host, read, s, init), Process(Run(host, read, s, init), host, read, caps[|caps| - 1]))
  }

  /** The number of captures whose radiotap walk succeeded. */
  function Walked(caps: seq<Capture>): nat
  {
    if |caps| == 0 then 0
    else Walked(caps[..|caps| - 1]) + (if caps[|caps| - 1].walk.status == EndOfFields then 1 else 0)
  }

  predicate LedgerInvariant(a: U32, s: Session, ds: seq<U32>)
  {
    s.airtime == (a + Sum(ds)) % Two32 &&
    (|ds| == 0 ==> s.prev == InitialPreviousFrame) &&
    (|ds| > 0 ==> ds[|ds| - 1] == s.prev.duration)
  }

  lemma ProcessKeepsLedger(a: U32, s: Session, ds: seq<U32>, host: Endianness, read: TsfRead, c: Capture)
    requires LedgerInvariant(a, s, ds)
    ensures LedgerInvariant(a, Next(s, host, read, c), Record(ds, Process(s, host, read, c)))
    ensures |Record(ds, Process(s, host, read, c))| ==
      |ds| + (if c.walk.status == EndOfFields then 1 else 0)
  {
    CallAccounting(s, host, read, c);
    OutcomeKeepsLedger(a, s, ds, Process(s, host, read, c));
  }

  lemma OutcomeKeepsLedger(a: U32, s: Session, ds: seq<U32>, o: Outcome)
    requires LedgerInvariant(a, s, ds) && Accounted(s, o)
    ensures LedgerInvariant(a, o.session, Record(ds, o))
    ensures |Record(ds, o)| == |ds| + (if o.counted.Some? then 1 else 0)
  {
    if o.recounted.Some? {
      assert |ds| > 0;
      var init := ds[..|ds| - 1];
      var corrected := init + [o.recounted.value];
      assert corrected[..|corrected| - 1] == init;
      assert Sum(corrected) == Sum(ds) - s.prev.duration + o.recounted.value;
      assert (corrected + [o.counted.value])[..|corrected|] == corrected;
      ModAdd(a + Sum(ds), o.recounted.value - s.prev.duration + o.counted.value);
    } else if o.counted.Some? {
      assert (ds + [o.counted.value])[..|ds|] == ds;
      ModAdd(a + Sum(ds), o.counted.value);
    }
  }

  /** Over a whole capture the airtime is the initial airtime plus the final
      duration of each successfully parsed frame (each first subframe counted
      once, with its corrected duration), modulo 2^32; the last entry is the
      previous frame's duration, and there is one entry per parsed frame. */
  lemma {:induction false} RunKeepsLedger(host: Endianness, read: TsfRead, a: U32, caps: seq<Capture>)
    ensures LedgerInvariant(a, Run(host, read, StartSession(a), caps), Ledger(host, read, StartSession(a), caps))
    ensures |Ledger(host, read, StartSession(a), caps)| == Walked(caps)
  {
    if |caps| > 0 {
      var init := caps[..|caps| - 1];
      RunKeepsLedger(host, read, a, init);
      ProcessKeepsLedger(a, Run(host, read, StartSession(a), init), Ledger(host, read, StartSession(a), init),
                         host, read, caps[|caps| - 1]);
    }
  }

  lemma {:induction false} SumAtLeastLast(ds: seq<U32>)
    requires |ds| > 0
    ensures Sum(ds) >= ds[|ds| - 1]
  {
    var init := ds[..|ds| - 1];
    if |init| > 0 {
      SumAtLeastLast(init);
    }
  }

  /** While the total has not wrapped, the airtime is at least the previous
      frame's duration, so taking that duration back out does not underflow. */
  lemma AirtimeCoversPreviousDuration(host: Endianness, read: TsfRead, a: U32, caps: seq<Capture>)
    requires a + Sum(Ledger(host, read, StartSession(a), caps)) < Two32
    ensures Run(host, read, StartSession(a), caps).airtime >= Run(host, read, StartSession(a), caps).prev.duration
  {
    RunKeepsLedger(host, read, a, caps);
    LedgerCovers(a, Run(host, read, StartSession(a), caps), Ledger(host, read, StartSession(a), caps));
  }

  lemma LedgerCovers(a: U32, s: Session, ds: seq<U32>)
    requires LedgerInvariant(a, s, ds) && a + Sum(ds) < Two32
    ensures s.airtime >= s.prev.duration
  {
    if |ds| > 0 {
      SumAtLeastLast(ds);
    }
  }

  // ---------------------------------------------------------------------------
  // Scenarios

  /** An 802.11n capture with a TSF and an MCS field of index 7. */
  function HtCapture(tsf: Octets8): Capture
  {
    Capture(1500, 0, RadiotapWalk([Tsft(tsf), Mcs(0x02, 0, 7)], EndOfFields))
  }

  /** A matching 802.11n frame after a frame outside any aggregate opens the
      aggregate as its second subframe and corrects the first. */
  lemma SecondSubframeOpens(s: Session, host: Endianness, read: TsfRead, c: Capture)
    requires c.walk.status == EndOfFields && Header(host, read, c).phy.Phy11n?
    requires AmpduMatch(s, Header(host, read, c)) && !s.currentAggregate
    ensures Process(s, host, read, c).recounted.Some?
    ensures Next(s, host, read, c).currentAggregate && Next(s, host, read, c).isSecondSubframe
  {
    assert AmpduMatch(s.(isFirstFrame := false), Header(host, read, c));
  }

  /** Intel: the first subframe carries the TSF, the next a zero TSF. Two such
      802.11n captures at the start of a capture are recognised as an aggregate:
      the second is the second subframe and the first one is recounted. */
  lemma IntelAggregate(host: Endianness, read: TsfRead, a: U32, c1: Capture, c2: Capture)
    requires c1.walk.status == EndOfFields && c2.walk.status == EndOfFields
    requires Header(host, read, c1).phy.Phy11n? && Header(host, read, c2).phy.Phy11n?
    requires Header(host, read, c1).hasTsf && Header(host, read, c1).tsf != 0
    requires Header(host, read, c2).hasTsf && Header(host, read, c2).tsf == 0
    ensures var s1 := Next(StartSession(a), host, read, c1);
      !s1.currentAggregate &&
      Process(s1, host, read, c2).recounted.Some? &&
      Next(s1, host, read, c2).currentAggregate && Next(s1, host, read, c2).isSecondSubframe
  {
    var s1 := Next(StartSession(a), host, read, c1);
    FirstFrameRemembered(a, host, read, c1);
    assert AmpduMatch(s1, Header(host, read, c2));
    SecondSubframeOpens(s1, host, read, c2);
  }

  /** After the first capture of a session, no aggregate is open and the
      previous frame is that capture's PHY and TSF. */
  lemma FirstFrameRemembered(a: U32, host: Endianness, read: TsfRead, c: Capture)
    requires c.walk.status == EndOfFields
    ensures var s1, h := Next(StartSession(a), host, read, c), Header(host, read, c);
      !s1.currentAggregate && s1.prev.phy == h.phy && s1.prev.hasTsf == h.hasTsf && s1.prev.tsf == h.tsf
  {
    FirstFrameStandsAlone(a, host, read, c);
    SuccessfulCallRecordsFrame(StartSession(a), host, read, c);
  }

  /** QCA: after an 802.11n capture with the all-ones TSF, the next 802.11n
      capture with a TSF is in the aggregate, whatever its own TSF. */
  lemma QcaAggregate(host: Endianness, read: TsfRead, a: U32, c1: Capture, c2: Capture)
    requires c1.walk.status == EndOfFields && c2.walk.status == EndOfFields
    requires Header(host, read, c1).phy.Phy11n? && Header(host, read, c2).phy.Phy11n?
    requires Header(host, read, c1).hasTsf && Header(host, read, c1).tsf == AllOnesTsf
    requires Header(host, read, c2).hasTsf
    ensures Process(Next(StartSession(a), host, read, c1), host, read, c2).recounted.Some?
  {
    var s1 := Next(StartSession(a), host, read, c1);
    FirstFrameRemembered(a, host, read, c1);
    assert AmpduMatch(s1, Header(host, read, c2));
    SecondSubframeOpens(s1, host, read, c2);
  }

  const ZeroOctets: Octets8 := [0, 0, 0, 0, 0, 0, 0, 0]
  const LowOneOctets: Octets8 := [1, 0, 0, 0, 0, 0, 0, 0]
  const AllOnesOctets: Octets8 := [0xff, 0xff, 0xff, 0xff, 0xff, 0xff, 0xff, 0xff]
  /** The TSFs 0x100 and 0x200, which share their first octet. */
  const Tsf100Octets: Octets8 := [0, 1, 0, 0, 0, 0, 0, 0]
  const Tsf200Octets: Octets8 := [0, 2, 0, 0, 0, 0, 0, 0]

  /** A capture with a TSFT and an MCS field is 802.11n, and its TSF is what the
      loop's read makes of the octets. */
  lemma HtHeader(host: Endianness, read: TsfRead, tsf: Octets8)
    ensures Header(host, read, HtCapture(tsf)).phy.Phy11n?
    ensures Header(host, read, HtCapture(tsf)).hasTsf
    ensures Header(host, read, HtCapture(tsf)).tsf == ReadTsf(read, host, tsf)
  {
    var fs := [Tsft(tsf), Mcs(0x02, 0, 7)];
    assert fs[..1] == [Tsft(tsf)];
    assert [Tsft(tsf)][..0] == [];
    var first := Step(host, read, InitialScan, Tsft(tsf));
    assert Summarize(host, read, fs[..1]) == first;
    var scan := Step(host, read, first, Mcs(0x02, 0, 7));
    assert Summarize(host, read, fs) == scan;
    assert scan.checker == InitialScan.checker.(shortGi := scan.checker.shortGi);
    assert !scan.hasDataRate && scan.dataRate == 0 && HasMcs(scan);
    assert scan.hasTsf && scan.tsf == ReadTsf(read, host, tsf);
  }

  /** With the 64-bit read, all three A-MPDU patterns occur: 802.11n captures
      can carry a non-zero, a zero and the all-ones TSF. */
  lemma PatternsReachable(host: Endianness)
    ensures Header(host, FullWord, HtCapture(LowOneOctets)).tsf != 0
    ensures Header(host, FullWord, HtCapture(ZeroOctets)).tsf == 0
    ensures Header(host, FullWord, HtCapture(AllOnesOctets)).tsf == AllOnesTsf
  {
    HtHeader(host, FullWord, LowOneOctets);
    HtHeader(host, FullWord, ZeroOctets);
    HtHeader(host, FullWord, AllOnesOctets);
    TsfValueKeepsOctets(host, LowOneOctets, ZeroOctets);
    ZeroTsf(host);
  }

  lemma ZeroTsf(host: Endianness)
    ensures TsfValue(host, ZeroOctets) == 0
  {
    LeValue64Bytes(ZeroOctets);
    Bytes64Determine(LeValue64(ZeroOctets), 0);
  }

  /** As written, no capture ever carries the all-ones TSF, so the QCA pattern
      of `in_ampdu` (the premise of QcaAggregate) never occurs. */
  lemma QcaNeverAsWritten(host: Endianness, c: Capture)
    ensures Header(host, FirstOctet, c).tsf != AllOnesTsf
  {
    var fs := c.walk.fields;
    SummarizeIsLastWins(host, FirstOctet, fs);
    var l := LatestOf(fs);
    assert Summarize(host, FirstOctet, fs).tsf == if l.tsft.Some? then TsfAsWritten(host, l.tsft.value) else 0;
    if l.tsft.Some? {
      TsfAsWrittenLosesOctets(host, l.tsft.value, l.tsft.value);
    }
  }

  /** Two 802.11n captures with the distinct TSFs 0x100 and 0x200: as written,
      both TSFs read alike, so the second capture is taken for the second
      subframe of an aggregate and the first is recounted; with the 64-bit read
      no pattern matches and nothing is recounted. */
  lemma FirstOctetMergesTsfs(host: Endianness, a: U32)
    ensures var c1, c2 := HtCapture(Tsf100Octets), HtCapture(Tsf200Octets);
      Process(Next(StartSession(a), host, FirstOctet, c1), host, FirstOctet, c2).recounted.Some? &&
      Process(Next(StartSession(a), host, FullWord, c1), host, FullWord, c2).recounted.None?
  {
    var c1, c2 := HtCapture(Tsf100Octets), HtCapture(Tsf200Octets);
    HtHeader(host, FirstOctet, Tsf100Octets);
    HtHeader(host, FirstOctet, Tsf200Octets);
    TsfAsWrittenLosesOctets(host, Tsf100Octets, Tsf200Octets);
    var s1 := Next(StartSession(a), host, FirstOctet, c1);
    FirstFrameRemembered(a, host, FirstOctet, c1);
    assert AmpduMatch(s1, Header(host, FirstOctet, c2));
    SecondSubframeOpens(s1, host, FirstOctet, c2);
    FullWordKeepsApart(host, a);
  }

  lemma FullWordKeepsApart(host: Endianness, a: U32)
    ensures var c1, c2 := HtCapture(Tsf100Octets), HtCapture(Tsf200Octets);
      Process(Next(StartSession(a), host, FullWord, c1), host, FullWord, c2).recounted.None?
  {
    var c1, c2 := HtCapture(Tsf100Octets), HtCapture(Tsf200Octets);
    HtHeader(host, FullWord, Tsf100Octets);
    HtHeader(host, FullWord, Tsf200Octets);
    TsfValueKeepsOctets(host, Tsf100Octets, Tsf200Octets);
    TsfValueKeepsOctets(host, Tsf100Octets, AllOnesOctets);
    TsfValueKeepsOctets(host, Tsf200Octets, ZeroOctets);
    ZeroTsf(host);
    var s1 := Next(StartSession(a), host, FullWord, c1);
    FirstFrameRemembered(a, host, FullWord, c1);
    assert !AmpduMatch(s1, Header(host, FullWord, c2));
    ProcessIsHandle(s1, host, FullWord, c2);
  }

  /** A capture whose only field is an MCS field has that MCS header and
      nothing else the classification looks at. */
  lemma McsOnlyScan(host: Endianness, read: TsfRead, m: McsHeader)
    ensures var s := Summarize(host, read, [Mcs(m.known, m.flags, m.mcs)]);
      s.mcsInfo == Some(m) && s.checker.hasFhss == 0 && s.checker.hasVht == 0 && !s.hasDataRate &&
      s.dataRate == 0 && s.checker.isCck == 0 && s.checker.is2Ghz == 0
  {
    assert [Mcs(m.known, m.flags, m.mcs)][..0] == [];
  }

  /** The classifier passes any MCS index up to 255 through: an MCS field with
      index 77 yields an 802.11n descriptor beyond the 77-entry tables, which
      `calculate_duration` as written would index out of bounds; the checked
      duration is 0. */
  lemma McsBeyondTables(host: Endianness, read: TsfRead)
    ensures var h := Classify(Summarize(host, read, [Mcs(0x02, 0, 77)]));
      h.phy.Phy11n? && h.phy.ht.mcsIndex == 77 && h.phy.ht.mcsIndex > MaxMcsIndex &&
      forall len: U32, inAggregate: bool, firstFrame: bool ::
        Duration(h, len, inAggregate, firstFrame) == 0
  {
    var m := McsHeader(0x02, 0, 77);
    var fs := [Mcs(0x02, 0, 77)];
    assert fs[..0] == [];
    McsOnlyScan(host, read, m);
    ClassifyByPresence(Summarize(host, read, fs));
    HtFromMcsReadsKnownBits(m);
    assert BitAt(0x02, 1) == 1;
  }
}
