# airtime_cal in Dafny

airtime_cal adds up the airtime of captured 802.11 frames. For each captured
packet, `got_packet` in `src/packet_analyzer.c` does the following:

- It walks the radiotap header and folds the fields into a `checker` record and a PHY descriptor.
- It classifies the frame as exactly one PHY: FHSS, 802.11b, a, g, n, ac or unknown.
- For 802.11n it detects A-MPDU aggregates from the TSF patterns of Broadcom, Intel and QCA hardware. The detection is `in_ampdu`.
- When an aggregate is detected, it retroactively corrects the duration of the aggregate's first subframe.
- It adds the frame's duration, from `calculate_duration` in `src/duration_calculation.c`, to an `unsigned int` accumulator.

`src/endian_converter.c` holds the byte swaps and the host-order conversions.
The older standalone program `src/airtime_cal.c` adds a preamble decision table
and the guarded table index of `calculate_data_rate`.

The model has one module per part of the program:

- `CInt` (cint.dfy): the C integer widths as bounded naturals, and `unsigned int` arithmetic with its wrap modulo 2^32 written out.
- `Bits` (bits.dfy): `get_sub_value`, as a method with its shifting loop proved against a specification function. It also holds `get_bit` and the padding `(x | 3) + 1`. The bitwise operators are defined on naturals.
- `Endian` (endian.dfy): `swap_endian_16/32/64` on `bv16`/`bv32`/`bv64`, and `le2local*`/`be2local*` with the host's byte order as a parameter. It also defines how a host loads a word from octets.
- `Ieee80211` (ieee80211.dfy): the PHY descriptor of `ieee80211.h` and the previous-frame record of `packet_analyzer.h`. The tagged union becomes a datatype whose constructor is the tag.
- `Classifier` (classifier.dfy): the field loop of `got_packet`, written as a method with a `while` loop and proved against a fold `Summarize`, with the TSF read as written or as a 64-bit word. Around it:
  - a last-field-of-each-kind description of that fold, proved equal to it;
  - the precedence chain `Classify`;
  - the 802.11n descriptor built from the MCS field.
- `DurationCalculation` (duration.dfy): `calculate_duration` and `calculate_11n_duration` with the three 77-entry HT tables.
  - The 11b and 11a/g branches compute their `float` quotients exactly, as rounded-up integer divisions.
  - The 802.11n data field follows equation 20-32 in section 20.3.11 of IEEE 802.11n-2009. Its training fields follow Table 20-11 in section 20.3.9.4.6.
- `Analyzer` (analyzer.dfy): the cross-frame state of `packet_analyzer.c`.
  - `prev_frame`, `current_aggregate`, `is_first_frame`, `is_second_subframe` and the caller's `airtime` are the fields of the class `AirtimeAnalyzer`.
  - Its methods `InAmpdu`, `ProcessFrame` and `HandleFrame` change those fields as the C code does.
  - Each method is proved against the function `Process`/`Handle`, which describes one call on a value of those fields.
  - Over a sequence of captures, a ledger lemma relates the accumulator to the per-frame durations.
- `Legacy` (legacy.dfy): the preamble table and `calculate_data_rate`'s guard and index from `src/airtime_cal.c`. The preamble table is compared with the duration calculator. That file's `get_sub_value` and `get_bit` (`src/airtime_cal.c:259-270`) are the same code as in `src/packet_analyzer.c`, and module `Bits` models both.

The radiotap iterator is a library whose source is not part of this model. The
model receives the fields the iterator yields, in order, and the status it
finally returns. Success is `-ENOENT` (-2).

Two places in the code do not do what the rest of the program relies on. The
model keeps both readings side by side (see Findings):

- The TSFT read at `src/packet_analyzer.c:127` converts only the first octet of the field.
  - The field loop, and everything built on it, takes the TSF read as a parameter `TsfRead`. `FirstOctet` is the code as written; `FullWord` is the 64-bit read that the A-MPDU patterns of `in_ampdu` (`src/packet_analyzer.c:450-456`) rely on.
  - The class `AirtimeAnalyzer` uses `FirstOctet`, so `ProcessFrame` is `got_packet` as written.
  - The properties of one call and of a whole capture hold for both reads. The lemmas `QcaNeverAsWritten` and `FirstOctetMergesTsfs` state where the two reads part.
- The HT tables hold `MAX_MCS_INDEX + 1` = 77 entries (`src/duration_calculation.c:4-48`). The code indexes them with the captured MCS index, which can be up to 255, without a check.
  - `DurationCalculation.CalculateDuration` is the code as written. Its precondition is what its table lookups need.
  - `DurationCalculation.Duration` adds the bound check: an index above 76 contributes 0. An out-of-bounds read has no defined value to model, so the analyzer uses `Duration`.

`is_first_frame` is cleared before the test at `src/packet_analyzer.c:290`, so
that test always passes. The first frame is still not part of an aggregate,
because the zeroed `prev_frame` has the unknown PHY. The model keeps that order.

## Model

| member | source | states |
|---|---|---|
| Bits.GetSubValue | src/packet_analyzer.c:372-378 | the shifting loop returns the masked value with its own trailing zero bits shifted out, truncated to `u_int8_t` |
| Bits.SubValueZeroIff | src/airtime_cal.c:264-270 | `get_sub_value` is 0 exactly when `value & mask` is 0 |
| Bits.SubValueShape | src/packet_analyzer.c:372-378 | a non-zero masked value is shifted down by its own trailing zeros, not the mask's: the result is odd, and shifting it back up gives the masked value |
| Bits.SubValueSingleBit | src/packet_analyzer.c:372-378 | for a one-bit mask `1 << k` the result is bit k of the value, 0 or 1 |
| Bits.SubValueTwoBitField | src/packet_analyzer.c:372-378 | for a two-bit mask `3 << k` the result reads the field values 0, 1, 2, 3 as 0, 1, 1, 3 |
| Bits.GetBit | src/packet_analyzer.c:359-362 | `get_bit(value, bit)` is bit `bit` of value, for bit < 32 |
| Bits.PadIsNextMultipleOfFour | src/packet_analyzer.c:321 | `(x \| 3) + 1` is the least multiple of 4 strictly above x, so it adds 1 to 4; it wraps to 0 for the top four 32-bit values |
| Endian.Swap16Bytes | src/endian_converter.c:12-20 | `swap_endian_16` exchanges the two bytes |
| Endian.Swap32Bytes | src/endian_converter.c:30-42 | `swap_endian_32` moves byte k to byte 3 - k |
| Endian.Swap64Bytes | src/endian_converter.c:45-61 | `swap_endian_64` moves byte k to byte 7 - k |
| Endian.Swap16Involution | src/endian_converter.c:12-20 | swapping twice gives the 16-bit word back |
| Endian.Swap32Involution | src/endian_converter.c:30-42 | swapping twice gives the 32-bit word back |
| Endian.Swap64Involution | src/endian_converter.c:45-61 | swapping twice gives the 64-bit word back |
| Endian.Swap16Reverses | src/endian_converter.c:12-20 | the swap of two octets' little-endian value is the value of the reversed octets |
| Endian.Swap32Reverses | src/endian_converter.c:30-42 | the swap of four octets' little-endian value is the value of the reversed octets |
| Endian.Swap64Reverses | src/endian_converter.c:45-61 | the swap of eight octets' little-endian value is the value of the reversed octets |
| Endian.Load16Converts | src/endian_converter.c:86-106 | on either host, `le2local16` of the word loaded from two octets is their little-endian value, and `be2local16` is their big-endian value |
| Endian.Load32Converts | src/endian_converter.c:116-135 | the same for four octets and `le2local32`/`be2local32` |
| Endian.Load64Converts | src/endian_converter.c:138-150 | the same for eight octets and `le2local64`/`be2local64` |
| Endian.ConversionsRelated | src/endian_converter.c:86-150 | on either host `be2localN(x)` is `swap_endian_N(le2localN(x))`, and `le2localN` applied twice is the identity |
| Ieee80211.TagIdentifiesKind | src/packet_analyzer.c:450-451 | comparing `phy` tags compares the kind of PHY, whatever the payloads |
| DurationCalculation.HtTablesWellFormed | src/duration_calculation.c:4-48 | the streams, Nes and Dbps tables have exactly 77 entries each; every Dbps entry is at least 12 and every stream count is 1 to 4 |
| DurationCalculation.CeilDivSpec | src/duration_calculation.c:218 | the rounded-up quotient q is the least q with q * d >= a |
| DurationCalculation.RoundedSymbols | src/duration_calculation.c:147-155 | the quotient rounded up and multiplied by Mstbc fits in 32 bits, is a multiple of Mstbc, and is the fewest such symbols that carry the bits |
| DurationCalculation.HtSymbols | src/duration_calculation.c:142-155 | the symbol count is a multiple of Mstbc, its symbols carry all the data bits, and one Mstbc-group fewer would not |
| DurationCalculation.HtPreamble | src/duration_calculation.c:274-307 | the HT preamble is missing exactly when there are more than 3 extension streams or more than 4 space-time streams; otherwise it is 28 to 64 us, in whole 4 us symbols |
| DurationCalculation.HtSymbolTime | src/duration_calculation.c:158 | the data duration is 4 us per symbol with the long guard interval, and 3.6 us per symbol rounded to the nearest microsecond with the short one |
| DurationCalculation.GuardIntervalRounding | src/duration_calculation.c:158 | for symbol counts below 2^25, `(s * 40 + 5) / 10` is 4 s exactly and `(s * 36 + 5) / 10` is 3.6 s rounded to the nearest integer, without wrapping |
| DurationCalculation.FirstFrameAddsPreamble | src/duration_calculation.c:274-310 | with `first_frame` set, an 11n duration is the preamble plus the same data duration, or 0 when the preamble breaks out; other PHYs ignore the flag |
| DurationCalculation.MixedPreambleByStreams | src/duration_calculation.c:254-303 | for the mixed format without STBC or extension streams, the preamble is 36, 40, 48 and 48 us for 1 to 4 streams |
| DurationCalculation.DsssDurationIsCeiling | src/duration_calculation.c:198-221 | the 11b duration is the least whole number of microseconds that covers the preamble (96 or 192 us) and 8 * len bits at rate / 2 Mb/s, with 1 Mb/s when no rate was captured |
| DurationCalculation.DsssDurationValue | src/duration_calculation.c:200-218 | the 11b duration is the preamble plus the rounded-up payload time |
| DurationCalculation.OfdmDurationIsCeiling | src/duration_calculation.c:222-248 | the 11a/g duration is 20 us plus 4 us for each of the fewest symbols of 4 * rate bits that carry 22 + 8 * len bits |
| DurationCalculation.NoDurationWithoutCase | src/duration_calculation.c:194-319 | FHSS, 802.11ac and every PHY without a case take no airtime |
| DurationCalculation.Duration | src/duration_calculation.c:140-147 | an 11n descriptor whose MCS index is beyond the tables contributes 0; every other descriptor gets the duration `calculate_duration` computes |
| DurationCalculation.DsssExample | src/duration_calculation.c:198-221 | 100 octets at 1 Mb/s with a short preamble take 896 us |
| DurationCalculation.OfdmExample | src/duration_calculation.c:222-248 | 60 octets at 12 Mb/s in OFDM take 64 us |
| DurationCalculation.HtExample | src/duration_calculation.c:249-311 | 1500 octets of MCS 7 at 20 MHz with the long guard interval take 188 us |
| Classifier.TsfValue | src/packet_analyzer.c:124-131 | on either host, the corrected TSF read gives the little-endian value of the field's eight octets |
| Classifier.ScanFields | src/packet_analyzer.c:81-169 | the field loop ends in the state of the field-by-field fold `Summarize`, for either TSF read; with `FirstOctet` the TSF is the first octet converted, as :127 does |
| Classifier.SummarizeIsLastWins | src/packet_analyzer.c:81-169 | the last field of each kind decides that kind's part of the state; a kind that never occurs leaves its part at the initial zero |
| Classifier.LastOfSpec | src/packet_analyzer.c:81-169 | the last field of a kind has that kind and occurs in the list, and there is none exactly when no field has that kind |
| Classifier.PresenceOfFields | src/packet_analyzer.c:91-168 | the checker sees FHSS, VHT, MCS, TSF and rate exactly when a field of that kind occurs |
| Classifier.FromLatestPresence | src/packet_analyzer.c:51-75 | an absent field kind reads as 0 (no rate gives rate 0, no channel gives all channel bits 0), and the short-preamble bit always agrees with the FLAGS byte |
| Classifier.HtFromMcsReadsKnownBits | src/packet_analyzer.c:252-288 | each `has_X` of the 802.11n descriptor is set exactly when its bit of `known` is (bits 0 to 6) |
| Classifier.HtFromMcsReadsFlags | src/packet_analyzer.c:253-287 | a value is read from the MCS `flags` only when its `known` bit is set and is 0 otherwise; one-bit values are their bit, bandwidth and STBC read through `get_sub_value` |
| Classifier.ClassifiedHtRanges | src/packet_analyzer.c:258-287 | a classified 802.11n frame has at most one extension stream, and its bandwidth and STBC values are never 2 |
| Classifier.ClassifyPrecedence | src/packet_analyzer.c:190-339 | exactly one PHY results, by the fixed precedence FHSS, 11b, 11a, 11g, 11n, 11ac, unknown; IR, DSSS and 11ad never result |
| Classifier.ClassifyByPresence | src/packet_analyzer.c:190-339 | FHSS decides; VHT rules out 11a and 11n; an MCS field without FHSS, VHT, rate, CCK or 2.4 GHz flags gives the 11n descriptor of that MCS header; the initial state gives unknown |
| Classifier.ClassifyFields | src/packet_analyzer.c:190-339 | the same facts in terms of the radiotap fields: an FHSS field gives FHSS, a VHT field rules out 11a and 11n, an MCS field without FHSS, VHT, rate or channel fields gives 11n, an empty header gives unknown |
| Classifier.ClassifyPreambleFlags | src/packet_analyzer.c:197-238 | 11b has a short preamble only when the FLAGS byte is non-zero, and then it is bit 1; 11g reports 1 whenever the FLAGS byte is non-zero |
| Classifier.ClassifyPreambleBit | src/packet_analyzer.c:197-238 | the preamble facts of ClassifyPreambleFlags for any state whose short-preamble bit was read from its FLAGS byte |
| Classifier.TsfAsWrittenLosesOctets | src/packet_analyzer.c:127 | read as written, the TSF is never all ones, and two TSF fields that share their first octet read the same |
| Classifier.FirstOctetNotAllOnes | src/packet_analyzer.c:127 | on either host, converting a single widened octet never gives the all-ones word |
| Classifier.TsfValueKeepsOctets | src/packet_analyzer.c:453-455 | the corrected read tells any two TSF fields apart and reads eight 0xff octets as the all-ones TSF |
| Analyzer.AirtimeAnalyzer.constructor | src/packet_analyzer.c:11-16 | the statics start zeroed, with `is_first_frame` set and the caller's airtime |
| Analyzer.AirtimeAnalyzer.InAmpdu | src/packet_analyzer.c:438-476 | returns whether the frame continues an aggregate; on a match the aggregate is open and the frame is its second subframe exactly when it was not open before; on a mismatch the aggregate is closed and `is_second_subframe` is left alone |
| Analyzer.AirtimeAnalyzer.ProcessFrame | src/packet_analyzer.c:26-357 | one `got_packet` call, with the TSF read as written (first octet only), leaves the statics as `Process` describes |
| Analyzer.AirtimeAnalyzer.HandleFrame | src/packet_analyzer.c:290-356 | the A-MPDU test, the correction and the count leave the statics as `Handle` describes |
| Analyzer.FailedWalkCountsNothing | src/packet_analyzer.c:172-175 | a walk that does not end in `-ENOENT` only clears `is_first_frame`: nothing is counted and the airtime, previous frame and aggregate flags are unchanged |
| Analyzer.HandleRecordsFrame | src/packet_analyzer.c:344-356 | after a counted frame, the previous frame holds its PHY, TSF, final length and duration, and that duration is what was counted |
| Analyzer.SuccessfulCallRecordsFrame | src/packet_analyzer.c:177-356 | the same for a whole call whose walk succeeded |
| Analyzer.BaseLengthValue | src/packet_analyzer.c:177-180 | the base length is the captured length less the radiotap length, plus 4 when the FCS is not captured |
| Analyzer.HandleAggregateLengths | src/packet_analyzer.c:294-322 | an aggregate subframe's length gains the 4-octet delimiter and is padded to a multiple of 4; on the second subframe the first subframe's length is padded, then gains its delimiter |
| Analyzer.DelimiterThenPad | src/packet_analyzer.c:297-321 | delimiter then padding gives a multiple of 4 between len + 5 and len + 8 |
| Analyzer.PadThenDelimiter | src/packet_analyzer.c:303-304 | padding then delimiter gives a multiple of 4 between len + 5 and len + 8 |
| Analyzer.HandleFlags | src/packet_analyzer.c:290-324 | within the handling of one frame, the aggregate flags change only for 11n, and a correction needs a previous TSF and opens the aggregate as its second subframe |
| Analyzer.AggregateStateOnlyFrom11n | src/packet_analyzer.c:239-324 | the aggregate flags change only on frames classified 11n; a correction happens only on the second subframe of an aggregate, after a frame with a TSF |
| Analyzer.HandleAccounting | src/packet_analyzer.c:299-350 | the airtime moves by the frame's duration; on a second subframe it first loses the previous frame's old duration and gains its recomputed one, all modulo 2^32; the recomputed duration is the current frame's header applied to the previous length padded to a multiple of four plus the 4-byte delimiter (`((prev_length|3)+1)+4`), with the aggregate and first-frame flags set |
| Analyzer.SecondSubframeAccounting | src/packet_analyzer.c:299-315 | on the second subframe the airtime loses the previous frame's old duration and gains its recomputed one and the new frame's duration, modulo 2^32; the recomputed one is the duration under the current frame's header of `((prev_length|3)+1)+4` bytes, as the first subframe of an aggregate |
| Analyzer.CallAccounting | src/packet_analyzer.c:172-350 | the same for a whole call, with the recount taken under the header the field loop built from this capture; a frame is counted exactly when the walk ends in `-ENOENT` |
| Analyzer.CorrectionWraps | src/packet_analyzer.c:311-315 | the `unsigned int` subtraction and additions of the correction give the exact sum modulo 2^32 |
| Analyzer.FirstFrameStandsAlone | src/packet_analyzer.c:11-13 | the first captured frame is never part of an aggregate: nothing is corrected and the airtime grows by its duration alone |
| Analyzer.RunKeepsLedger | src/packet_analyzer.c:311-350 | over any captures, the airtime is the initial airtime plus the final duration of every counted frame, modulo 2^32; the last of those durations is the previous frame's |
| Analyzer.ProcessKeepsLedger | src/packet_analyzer.c:172-356 | one call keeps the ledger relation between the airtime, the initial airtime and the counted durations; the ledger grows by one entry exactly when the walk succeeds |
| Analyzer.LedgerCovers | src/packet_analyzer.c:311 | under the ledger relation and without wrap, the airtime is at least the previous frame's duration |
| Analyzer.AirtimeCoversPreviousDuration | src/packet_analyzer.c:311 | while the total has not wrapped, the airtime is at least the previous frame's duration, so the subtraction never underflows |
| Analyzer.FirstFrameRemembered | src/packet_analyzer.c:344-356 | after the first successful call the aggregate is closed and the previous frame holds that capture's PHY and TSF |
| Analyzer.SecondSubframeOpens | src/packet_analyzer.c:459-467 | a matching 11n frame after a frame outside any aggregate opens the aggregate as its second subframe and corrects the first |
| Analyzer.IntelAggregate | src/packet_analyzer.c:454 | at the start of a capture, an 11n frame with a non-zero TSF followed by an 11n frame with TSF 0 is recognised as an aggregate: the second is its second subframe and the first is recounted |
| Analyzer.QcaAggregate | src/packet_analyzer.c:455 | at the start of a capture, after an 11n frame with the all-ones TSF the next 11n frame with a TSF is in the aggregate, whatever its own TSF, and the first frame is recounted; for either read, though only the 64-bit read can produce the premise (see QcaNeverAsWritten) |
| Analyzer.PatternsReachable | src/packet_analyzer.c:124-153 | with the 64-bit read, 11n captures with a TSF reach all three A-MPDU patterns: a non-zero, a zero and the all-ones TSF |
| Analyzer.HtHeader | src/packet_analyzer.c:124-153 | the capture `HtCapture(tsf)`, a TSFT and an MCS-7 field, is 11n, with the TSF the loop's read gives: the first octet converted as written, the little-endian value of all eight with the 64-bit read (the general facts for any field list are `Classifier.SummarizeIsLastWins` and `Classifier.ClassifyFields`) |
| Analyzer.QcaNeverAsWritten | src/packet_analyzer.c:127 | with the TSF read as written, no capture of any kind yields the all-ones TSF, so the QCA test of :455 never matches |
| Analyzer.FirstOctetMergesTsfs | src/packet_analyzer.c:127 | as written, 11n captures with the distinct TSFs 0x100 and 0x200 are taken for an aggregate and the first is recounted; with the 64-bit read nothing is recounted |
| Analyzer.FullWordKeepsApart | src/packet_analyzer.c:450-456 | with the 64-bit read, the captures with TSFs 0x100 and 0x200 match no A-MPDU pattern, so nothing is recounted |
| Analyzer.McsOnlyScan | src/packet_analyzer.c:144-153 | a radiotap header holding only an MCS field records that MCS header and nothing else the classification looks at |
| Analyzer.McsBeyondTables | src/packet_analyzer.c:253-257 | the classifier passes MCS index 77 through into an 11n descriptor, beyond the 77-entry tables; the checked duration of that descriptor is 0 |
| Legacy.LegacyPreamble | src/airtime_cal.c:224-246 | the preamble is a whole number of 4 us symbols; it is 0 exactly for an MCS index above 23 on a frame that is not CCK-only; for CCK-only frames it is 96 exactly when the short-preamble bit is set |
| Legacy.DataRateIndex | src/airtime_cal.c:272-312 | the program exits exactly when mcs > 31, bandwidth > 1 or short_gi > 1; otherwise the index is below 128, inside the table |
| Legacy.DataRateIndexDecodes | src/airtime_cal.c:312 | the index gives back mcs, bandwidth and short_gi |
| Legacy.DataRateIndexCovers | src/airtime_cal.c:280-312 | every one of the 128 entries is reached |
| Legacy.DataRateIndexInjective | src/airtime_cal.c:312 | distinct accepted argument triples pick distinct entries |
| Legacy.DataRateFromMcsFlags | src/airtime_cal.c:193-198 | from the MCS field, the guard-interval argument is bit 2 of the flags; the program exits exactly when the bandwidth bits are 3 (20U); 20L reads as 40 MHz |
| Legacy.HtStreamsFirst32 | src/duration_calculation.c:8-12 | for MCS 0 to 31 the stream count is mcs / 8 + 1 |
| Legacy.LegacyCckPreamble | src/airtime_cal.c:226-231 | the CCK preamble is the 802.11b preamble `calculate_duration` charges for an empty frame |
| Legacy.LegacyOfdmPreamble | src/airtime_cal.c:232-234 | without an MCS field the preamble is the 20 us the 11a/g duration adds to its symbols |
| Legacy.LegacyHtPreamble | src/airtime_cal.c:235-246 | with an MCS field, the preamble equals the 11n mixed-format preamble for one or two streams, is 4 us shorter for three streams, and is 0 for four (where the 11n preamble is 48) |

## Left out

- pcap capture, filtering and dumping, `main` and all logging (`printf`, `fprintf`): these are I/O. The `pkt_no` counter serves only the logging.
- The radiotap iterator (`ieee80211_radiotap_iterator_init`/`_next`) is not part of this model. Its fields and final status are inputs. Header alignment and padding, and the FREQUENCY word of the CHANNEL field, are not modelled. FHSS and VHT payloads are not parsed by the source either.
- Floating point: `ieee80211_htrate`, `ieee80211_vhtrate`, `calculate_11ac_duration`, the VHT and subcarrier tables, the `float` accumulator of `src/airtime_cal.c` and its rate-table values.
- DurationCalculation.DsssDuration and DurationCalculation.OfdmDuration compute the `float` quotients exactly.
  - A captured rate of 0 divides by zero in `float`. The 11b branch then takes the duration as 0. The 11a/g branch takes the symbol count as 0, so its duration is the 20 us preamble.
  - Results of 2^32 or more, whose conversion to `unsigned int` C leaves undefined, are taken modulo 2^32.
- `is_little_endian` inspects memory. The host's byte order is a parameter instead.
- The commented-out `calculate_80211n_data_rate`, the unused `struct aggregate` and `struct wlan_radio`, and the descriptor fields the analyzer never sets: channel, frequency, signal, noise, FCS length and zero-length PSDU.
- The `got_packet` field loop of `src/airtime_cal.c` only feeds the left-out `float` accumulator and the logged preamble. Legacy.LegacyPreamble takes the `preamble_conditions` record and the MCS index as inputs.
- DurationCalculation.DsssDurationIsCeiling, DurationCalculation.DsssDurationValue and DurationCalculation.OfdmDurationIsCeiling are stated for lengths below 2^27 octets and a non-zero rate, where nothing wraps.
- DurationCalculation.HtSymbolTime is stated for lengths below 2^24 octets, where the symbol count times 40 fits in 32 bits.
- Analyzer.BaseLengthValue is stated for lengths where the subtraction and the FCS addition do not wrap.
- Analyzer.HandleAggregateLengths, Analyzer.DelimiterThenPad and Analyzer.PadThenDelimiter are stated for lengths below 2^32 - 8. Above that, the padding wraps to 0, as Bits.PadIsNextMultipleOfFour states.
- Analyzer.AirtimeCoversPreviousDuration is stated while the exact total stays below 2^32. Analyzer.RunKeepsLedger states the wrapped relation for all totals.
- Legacy.LegacyOfdmPreamble is stated for a non-zero rate and lengths below 2^27 octets.
- Legacy.LegacyHtPreamble is stated without extension streams or greenfield, which the legacy program does not read.
- The 20 us of the legacy table, and the 11a/g preamble of 16 + 4 us, match the duration calculator. For 3 spatial streams the legacy table gives 44 us where Table 20-11 gives 48; the legacy program only logs that value.

## Findings

| source | as written | input that shows it | evidently intended | confidence | as-written member | corrected member |
|---|---|---|---|---|---|---|
| src/packet_analyzer.c:127 | `le2local64(*(iter.this_arg))` dereferences the iterator's octet pointer, so only the first TSF octet is converted; the all-ones test of `in_ampdu` (QCA) can never hold, and TSFs that differ only above their first octet compare equal | on a little-endian host a TSFT field of eight 0xff octets reads 0xff, not all ones; on any host two 11n captures with the TSFs 0x100 and 0x200 (first octet 0) read the same TSF, so the second is taken for an aggregate subframe and the first is recounted | read the full 64-bit little-endian word | not executed | Analyzer.FirstOctetMergesTsfs | Classifier.TsfValueKeepsOctets |
| src/duration_calculation.c:140-147 | the captured MCS index, up to 255, indexes the 77-entry `ieee80211_ht_Nes`, `ieee80211_ht_Dbps` and `ieee80211_ht_streams` tables without a bound check | an MCS field with `known` = 0x02 and index 77 is classified 11n with `mcs_index` 77 | an index above 76 contributes no airtime | not executed | Analyzer.McsBeyondTables | DurationCalculation.Duration |
