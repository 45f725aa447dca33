# tst: a verified model of the transport, metadata and release machinery

tst packs video, audio and KLV metadata into transport streams, sends those over SRT, RIST, HLS
and WebRTC, and unpacks them at the other end. This project models the parts where a
mistake would be silent, and proves what each promises over every input and every run.

* **Transport** (`TsPacket`, `PesPacket`, `TsMux`, `PesReassembly`, `TsDemux`, `TsLoss`, and the
  laws beside them): 188-byte packets, PES packets, the muxer's packetizer with its continuity
  counters, the demuxer's continuity check and per-PID reassembly with its two caps. Whatever is
  pushed comes out whole, once and in order; whatever is lost on the wire is never passed off as
  whole, and what does arrive whole comes out unmarked, once and in order, behind every gap the
  4-bit counter shows. For one gap it does not show, the report is proved exactly.
* **KLV in SEI** (`EmulationPrevention`, `AnnexB`, `LengthPrefixed`, `FrameReading`,
  `SeiMessage`, `KlvExtract`):
  the Rust writer against the JavaScript player's parser (sections 7.3.1 and 7.4.1 and Annex B of
  ITU-T H.264, the `sei_message` syntax of its section 7.3.2.3.1).
* **KLV delivery** (`KlvDelivery`, `KlvQueue`, `KlvDeliveryLaws`, `KlvCarriages`): the player's
  paint-locked queue with serial-number order (section 3.2 of RFC 1982) and its dedupe window.
* **First-keyframe rewriting** (`AnnexBJoin`, `NalUnits`, `SetMap`, `VideoPick`,
  `VideoPickLaws`).
* **PCR pacing** of the file server (`PcrPacer`, `PcrPacerLaws`).
* **Rekey budget** (`RekeyBudget`), a token bucket kept as one timestamp.
* **Source staging and patching** (`SourceFixups`, `Staging`, `StagingLaws`).
* **Listener locking** (`ListenerRules`, `ListenerRace`), an accept thread and its workers as interleaved steps.
* **Release gate** (`ReleaseGate`, `ReleaseGateLaws`, `ReleaseVm`) and the **feature closure**
  (`FeatureClosure`) of the documentation generator.

Code that updates state in place is a class or a method with loops, proved equal to a function on
values; the theorems are about those functions. Bytes are integers from 0 to 255, shifts and
masks are written as division and remainder, and widths that wrap are written out.

`dafny verify dfyconfig.toml` checks everything.

## What turned out false

* A frame behind start codes can be taken for a length-prefixed one: 00 00 01 06 is also the
  length 262. `KlvExtract.FrameReadIff` says exactly when a frame of clean units is read right.
* The continuity counter misses a gap of 16k lost packets, and one of 16k - 1 when the next packet
  repeats the last one, because the duplicate rule then drops it. `TsLoss.GapVerdict` is exact
  for one packet, `TsLossGaps.OneGapTruthful` for one gap anywhere in a run. An unbounded unit
  then loses bytes unmarked; a bounded one whose end is swallowed with the start of the next is
  filled up to its length with bytes of another, unmarked (`TsLossGaps.FilledUnmarked`).
* A PCR below its anchor that steps back by a second or less wraps the 64-bit subtraction and
  stalls the file server (`PcrPacerLaws.RunExactIff`).
* The comment on `apply_source_fixups` says a fix upstream already carries is never patched
  twice. `SourceFixups.UpstreamFix` says exactly when one fixup patches its own result again, and
  `SourceFixups.UpstreamPatched` when a file so patched passes the build.
  For a fixup whose new text lets no match reach across its ends that is decided by the fixup
  alone (`SourceFixups.UpstreamFixClear`); otherwise the text around it matters. Overlapping
  occurrences also count as one (`SourceFixups.CountOneExact`).
* Rewriting a keyframe clears the forbidden bit of every header. That spells a start code exactly
  for a unit that opens 80 00 01 (`NalUnits.RebuiltNoCode`), and then, and only then, the
  keyframe's units are not what a receiver splits out (`VideoPickLaws.FirstPushSplits`).
* One publisher per name fails in the listener's documented race
  (`ListenerRules.SecondCallerCanSlipIn`); `ListenerRace.NeverTwoIffSpaced` says exactly when
  it holds.
* The rekey budget's rate bound fails within 16 intervals of the end of the 64-bit clock: the due
  time wraps to a small value, the next request moves it back to now, and nobody is refused any
  more (`RekeyBudget.BudgetGoneNearEnd`). `RekeyBudget.BoundHoldsIff` is the exact condition.

## Model

| member | source | states |
|---|---|---|
| `TsDeliveryLaws.UnitsReachDemuxer` | crates/tst-core/src/mpegts/mux/mod.rs:344-366 | End to end: over every run of pushes and heartbeats on any PIDs, each unit pushed on a declared PID comes out of the demuxer once, in order, unmarked, with its 33-bit stamps, flags and payload; a unit above the per-PID cap is exactly one overflow |
| `TsDeliveryLaws.TransportDelivers` | crates/tst-core/src/mpegts/demux/demuxer.rs:588-701 | The same on raw PES bytes and on any run that does not hit the aggregate cap: everything reported on a PID is what was sent there, with no gap, repeat or damage seen |
| `TsLossLaws.LossNeverSilent` | crates/tst-core/src/mpegts/demux/pes.rs:296-324 | No silent corruption: let any packets of the PID be lost so long as each gap shows, with any bytes on other PIDs; every PES packet handed over was sent exactly so or stands right after a damage mark, at the final flush too unless an unbounded packet was cut there |
| `TsLossExact.LossExact` | crates/tst-core/src/mpegts/demux/pes.rs:175-324 | The other half, over the same losses and with the flush: the packets that come out unmarked are exactly those within the cap all of whose packets arrived, each once, whole and in the order sent; one that declares no length also needs the packet behind it to arrive, or nothing to arrive later |
| `TsLossExact.FlushedExpected` | crates/tst-core/src/mpegts/demux/pes.rs:175-324 | Arrival by arrival: what each packet that arrives gives unmarked, and whether a packet is then in flight unmarked |
| `TsLoss.GapVerdict` | crates/tst-core/src/mpegts/demux/sync_ingress.rs:253-390 | Exactly which gaps the continuity check sees: a packet g places on is in sequence iff g mod 16 is 1, dropped as a duplicate iff g mod 16 is 0 and it repeats the last packet, and a reported jump otherwise |
| `TsLossGaps.OneGapTruthful` | crates/tst-core/src/mpegts/demux/sync_ingress.rs:253-390 | For every run of the muxer and every one gap in it, inside one PES packet or across several, bounded or not, from an idle demuxer to the flush: what is handed over on the PID is truthful iff the gap shows, or what it filled up is marked short, does not parse or parses to a packet that was sent |
| `TsLossUnseen.UnseenGapExact` | crates/tst-core/src/mpegts/demux/pes.rs:175-324 | Behind a gap that does not show, everything reported: the packets before, the one in flight filled up with the bytes behind the gap to its declared length or to their end, and the packets after |
| `TsLossUnseen.TakesRest` | crates/tst-core/src/mpegts/demux/pes.rs:175-292 | The rest of any PES packet fills the one in flight up to its declared length and no further |
| `TsLossGaps.FilledUnmarked` | crates/tst-core/src/mpegts/demux/pes.rs:175-324 | A bounded unit whose end is swallowed with the start of the next, and filled up to its declared length, or an unbounded one, comes out unmarked as a unit with those bytes in its payload; truthful iff such a unit was sent |
| `TsLossGaps.GapInsideBounded` | crates/tst-core/src/mpegts/demux/pes.rs:296-324 | A gap inside one bounded PES packet is never silent: the packet is marked short |
| `TsLossGaps.SilentLoss` | crates/tst-core/src/mpegts/demux/sync_ingress.rs:253-390 | An unbounded unit with such a gap always comes out unmarked with a shorter payload, which is not truthful |
| `TsLossUnseen.RoundUnseen` | crates/tst-core/src/mpegts/demux/sync_ingress.rs:350-390 | Lost in a multiple of 16: the packets behind the gap are appended as if nothing were missing |
| `TsLossUnseen.RepeatUnseen` | crates/tst-core/src/mpegts/demux/sync_ingress.rs:310-343 | One fewer than a multiple of 16 lost, and a packet that repeats the last one seen: it is dropped as a duplicate and those behind it are appended |
| `TsDemux.RunLocal` | crates/tst-core/src/mpegts/demux/demuxer.rs:588-701 | Streams do not interfere: over every run that does not hit the aggregate cap, a PID's state and outcomes are those of its own live packets, whatever bytes the other PIDs carry |
| `TsDeliveryLaws.NeverTotal` | crates/tst-core/src/mpegts/demux/pes.rs:245-255 | A total cap with room for every declared stream at its own cap is never hit, whatever bytes arrive |
| `PesReassembly.PushAccounted` | crates/tst-core/src/mpegts/demux/pes.rs:175-292 | Every push keeps the byte counter equal to the bytes held and both caps: the saturating subtractions never saturate |
| `PesReassembly.MarkAccounted` | crates/tst-core/src/mpegts/demux/pes.rs:360-367 | So does marking damage |
| `TsMux.StreamChained` | crates/tst-core/src/mpegts/mux/ts.rs:40-45 | Over every run of the muxer a PID's counters move on by one per packet, across PES packets too, and each PES packet is carried whole and in order |
| `TsTransport.MuxedOn` | crates/tst-core/src/mpegts/mux/mod.rs:344-366 | Of a whole run's output, the packets live on a PID are exactly its own stream: heartbeats and other PIDs leave no trace |
| `TsDelivery.InStepRan` | crates/tst-core/src/mpegts/demux/sync_ingress.rs:253-390 | Packets with consecutive counters, whatever they carry, are never taken for lossy or repeated: the demuxer appends every payload |
| `TsDelivery.WholeRan` | crates/tst-core/src/mpegts/demux/pes.rs:175-292 | The packets of one PES packet close what was in flight and give it whole when bounded, or leave it waiting whole when unbounded |
| `TsLoss.LossyHonest` | crates/tst-core/src/mpegts/demux/pes.rs:360-367 | Over every lossy arrival whose gaps show, what is in flight is nothing, marked, or intact so far, and nothing damaged has been handed over unmarked |
| `PesPacket.PesRoundTrip` | crates/tst-core/src/mpegts/demux/pes.rs:419-546 | Parsing undoes the PES header writer exactly for the stream ids that carry the optional header (iff) |
| `PesPacket.StampRoundTrip` | crates/tst-core/src/mpegts/mux/pes.rs:485-494 | The 5-byte stamp field gives back its 33-bit value and prefix with every marker bit set |
| `TsPacketLaws.ParseInvertsPacket` | crates/tst-core/src/mpegts/demux/ts.rs:111-207 | Parsing undoes packet writing for every PID, flag, counter, adaptation field and non-empty payload: the bytes that fitted come back and nothing is reported malformed |
| `TsPacketLaws.ParseInvertsPcrOnly` | crates/tst-core/src/mpegts/mux/ts.rs:214-251 | A heartbeat parses to its PCR, no payload, the last counter again, nothing malformed |
| `TsPacketLaws.ReadPcrInvertsPacket` | examples/sending/srt_serve_ts_file.rs:395-419 | The file server reads back the PCR the muxer wrote, modulo the 33-bit clock, and none where none was written |
| `TsPacketLaws.ReadPcrInvertsPcrOnly` | examples/sending/srt_serve_ts_file.rs:395-419 | Likewise for heartbeats |
| `TsPacketLaws.ReadPcrCoversParse` | examples/sending/srt_serve_ts_file.rs:395-419 | It sees every PCR the demuxer accepts, with the same value, in any bytes |
| `TsPacket.PcrFieldRoundTrip` | examples/sending/srt_serve_ts_file.rs:411-418 | The 48-bit layout gives back every 33-bit base and 9-bit extension |
| `TsPacket.PcrValue` | crates/tst-core/src/mpegts/mux/ts.rs:255-265 | Base and extension together are the 27 MHz value modulo 300 * 2^33 |
| `TsPacket.WritePacket` | crates/tst-core/src/mpegts/mux/ts.rs:104-200 | The writer fills its 188-byte buffer with exactly the packet of the specification and returns what it consumed |
| `TsPacket.PutAdaptation` | crates/tst-core/src/mpegts/mux/ts.rs:156-191 | The adaptation field, stuffing included, written behind what is already there |
| `TsMuxerModel.TsMuxer.constructor` | crates/tst-core/src/mpegts/mux/ts.rs:32-36 | All counters at zero, nothing queued |
| `TsMuxerModel.TsMuxer.NextCounter` | crates/tst-core/src/mpegts/mux/ts.rs:40-45 | Returns the PID's counter, moves it on modulo 16 and leaves every other as it was |
| `TsMuxerModel.TsMuxer.DrainPes` | crates/tst-core/src/mpegts/mux/mod.rs:344-366 | The loop queues exactly the packets of the PES packet and moves the PID's counter by their number |
| `TsMuxerModel.TsMuxer.Heartbeat` | crates/tst-core/src/mpegts/mux/ts.rs:214-251 | Queues one heartbeat and leaves the counters alone |
| `TsDemuxerModel.Demuxer.constructor` | crates/tst-core/src/mpegts/demux/demuxer.rs:169-207 | A demuxer starts idle |
| `TsDemuxerModel.Demuxer.CheckContinuity` | crates/tst-core/src/mpegts/demux/sync_ingress.rs:253-390 | The branching check refines the continuity function and touches no other PID |
| `TsDemuxerModel.Demuxer.ProcessPacket` | crates/tst-core/src/mpegts/demux/demuxer.rs:588-701 | The packet path refines the step function the run theorems are about |
| `PesReassemblerModel.Reassembler.constructor` | crates/tst-core/src/mpegts/demux/pes.rs:129-138 | An empty reassembler, its accounting in order |
| `PesReassemblerModel.Reassembler.Open` | crates/tst-core/src/mpegts/demux/pes.rs:187-212 | A payload unit start closes what was in flight and opens a fresh packet |
| `PesReassemblerModel.Reassembler.Add` | crates/tst-core/src/mpegts/demux/pes.rs:213-290 | Appending under both caps, with every early return, refines the specification and keeps the accounting |
| `PesReassemblerModel.Reassembler.Push` | crates/tst-core/src/mpegts/demux/pes.rs:175-292 | The whole push refines the specification and keeps the accounting |
| `PesReassemblerModel.Reassembler.MarkDamaged` | crates/tst-core/src/mpegts/demux/pes.rs:360-367 | The first damage recorded wins; with nothing in flight nothing changes |
| `PesReassemblerModel.Reassembler.DrainPartial` | crates/tst-core/src/mpegts/demux/pes.rs:341-354 | Every partial packet is closed in PID order and the store is empty after |
| `PcrPacerLaws.SlicesExact` | examples/sending/srt_serve_ts_file.rs:301-353 | For every byte string the slices sent concatenate to it, each but the last ends at its only PCR packet, and the last does too or holds no PCR |
| `PcrPacerLaws.CutUnique` | examples/sending/srt_serve_ts_file.rs:301-353 | There is only one such cut, so these properties determine what is sent |
| `PcrPacerLaws.RunExactIff` | examples/sending/srt_serve_ts_file.rs:308-346 | Over every run, from the first PCR or from an anchor, all deadlines lie within a microsecond of the exact PCR offset iff no PCR falls below its anchor without stepping back more than a second |
| `PcrPacerLaws.ExactIff` | examples/sending/srt_serve_ts_file.rs:341-346 | One deadline is right iff its PCR is at or above the anchor |
| `PcrPacerLaws.HeldBelowAnchor` | examples/sending/srt_serve_ts_file.rs:343-344 | Below the anchor the 64-bit subtraction wraps: the exact delay, some 21 thousand years |
| `PcrPacerLaws.RisingIsExact` | examples/sending/srt_serve_ts_file.rs:308-324 | A stream that only moves forward, rollovers of more than a second apart, is paced exactly throughout |
| `PcrPacerLaws.SmallStepBackStalls` | examples/sending/srt_serve_ts_file.rs:313-323 | A witness: a second PCR one tick below the first stalls the server |
| `PcrPacing.PcrPacer.See` | examples/sending/srt_serve_ts_file.rs:308-344 | Anchoring, re-anchoring and the deadline of one PCR |
| `PcrPacing.PcrPacer.Send` | examples/sending/srt_serve_ts_file.rs:301-353 | The walk sends exactly the slices of the specification, with their deadlines and the final anchor; a refused slice ends the call with what was sent before it and the anchor already moved |
| `KlvExtract.FrameReadIff` | docs/webrtc/whep-sei-extract.js:58-84 | Every frame of clean units, any padding and start codes: the units come back iff the length walk refuses the frame, or they are single bytes behind 4-byte start codes, which are their lengths too |
| `FrameReading.SameBytes` | docs/webrtc/whep-sei-extract.js:67-84 | Framed and length-prefixed, clean units are the same bytes iff each is one byte behind a 4-byte start code |
| `KlvExtract.EndToEndAnnexB` | docs/webrtc/whep-sei-extract.js:37-47 | End to end: every frame of records and foreign units that is so read gives back exactly the records, in order |
| `KlvExtract.EndToEndUnambiguous` | docs/webrtc/whep-sei-extract.js:37-47 | So does every one that opens unambiguously, a condition on its first bytes |
| `KlvExtract.EndToEndSingle` | docs/webrtc/whep-sei-extract.js:37-159 | For every PTS and record: built, escaped, framed with a 4-byte start code and below 2^24 bytes, the record alone comes back, codec hinted or not |
| `KlvExtract.EndToEndLengthPrefixed` | docs/webrtc/whep-sei-extract.js:67-84 | The same over length prefixes, with no ambiguity at all |
| `KlvExtract.ThreeByteStartCode` | docs/webrtc/whep-sei-extract.js:67-69 | A lone record of either codec behind a 3-byte start code comes back iff the length walk refuses the frame |
| `KlvExtract.ThreeByteStartCodeLoses` | docs/webrtc/whep-sei-extract.js:67-84 | Every such H.264 frame of 266 bytes is misread and its record lost |
| `KlvExtract.ThreeByteStartCodeWitness` | docs/webrtc/whep-sei-extract.js:67-84 | Records with such a frame exist |
| `KlvExtract.WalkRefusesAnnexB` | docs/webrtc/whep-sei-extract.js:58-69 | A frame below 2^24 bytes that opens with a 4-byte code before a unit whose second byte is not zero, or with more padding, is never taken for length-prefixed |
| `KlvExtract.ForeignByFirstBytes` | docs/webrtc/whep-sei-extract.js:50-57 | Units that are not SEI by their first bytes carry no record |
| `KlvExtract.BuiltUnitRecord` | crates/tst-webrtc/src/sei.rs:58-69 | What the server builds for a codec, the player parses back under that codec's hint or none |
| `KlvExtract.UnitKlv` | docs/webrtc/whep-sei-extract.js:40-45 | One unit: header length, then the parse |
| `KlvExtract.ExtractKlvSeis` | docs/webrtc/whep-sei-extract.js:37-47 | The loop returns the records of the frame in order |
| `SeiMessage.SeiRoundTrip` | crates/tst-webrtc/src/sei.rs:112-128 | For every 64-bit PTS and any bytes, unescaping and parsing the SEI gives back the record |
| `SeiMessage.RbspRoundTrip` | docs/webrtc/whep-sei-extract.js:122-134 | The RBSP parses to its record |
| `SeiMessage.BodyRoundTrip` | docs/webrtc/whep-sei-extract.js:127-133 | So does the body: UUID, version, PTS, bytes |
| `SeiMessage.FfCodedRoundTrip` | docs/webrtc/whep-sei-extract.js:137-145 | The FF-coded integer is read back from the middle of any buffer, with the position after it |
| `SeiMessage.KlvNalClean` | crates/tst-core/src/codec/misp_time.rs:183-211 | The built unit holds no start code and ends in a non-zero byte, so it survives Annex B framing |
| `SeiMessage.BuildKlvSeiNal` | crates/tst-core/src/codec/misp_time.rs:183-211 | The builder returns that unit, or the unsupported-codec error |
| `SeiMessage.ReadFfCoded` | docs/webrtc/whep-sei-extract.js:137-145 | The reader's loop, failure at the end of the buffer included |
| `SeiMessage.ParseKlvSeiRbsp` | docs/webrtc/whep-sei-extract.js:122-134 | The parser refines the record function |
| `SeiMessage.ParseKlvBody` | docs/webrtc/whep-sei-extract.js:127-133 | UUID and version compared, PTS assembled byte by byte |
| `EmulationPrevention.UnescapeEscape` | docs/webrtc/whep-sei-extract.js:148-159 | Unescaping undoes escaping for every byte string |
| `EmulationPrevention.EscapeUnescape` | crates/tst-core/src/codec/misp_time.rs:158-168 | Escaping undoes unescaping iff the bytes are well escaped |
| `EmulationPrevention.EscapedIsWellEscaped` | crates/tst-core/src/codec/misp_time.rs:158-168 | Escaped output is always well escaped |
| `EmulationPrevention.WellEscapedAt` | crates/tst-core/src/codec/misp_time.rs:158-168 | Which at every position means 00 00 is followed by no 00, 01 or 02 |
| `EmulationPrevention.NothingToEscape` | crates/tst-core/src/codec/misp_time.rs:158-168 | Bytes without two zeros together are written as they are |
| `EmulationPrevention.AppendRbspEscaped` | crates/tst-core/src/codec/misp_time.rs:158-168 | The writer's loop appends the escaped bytes |
| `EmulationPrevention.Unescape` | docs/webrtc/whep-sei-extract.js:148-159 | The reader's loop over a fixed buffer returns the unescaped bytes |
| `AnnexB.AnnexBRoundTrip` | docs/webrtc/whep-sei-extract.js:95-108 | For any mix of 3- and 4-byte codes and zero padding, the units come back iff each is non-empty, free of start codes and ends in a non-zero byte |
| `AnnexB.AnnexBUnitsClean` | docs/webrtc/whep-sei-extract.js:95-115 | Whatever the buffer, every unit returned is like that |
| `AnnexB.FramedSlicesExact` | crates/tst-core/src/codec/annexb.rs:59-133 | The raw slices of a frame are the units with the zeros that precede the next code |
| `AnnexB.SlicesAfterHaveNoCode` | crates/tst-core/src/codec/annexb.rs:59-133 | No slice of any buffer holds a start code |
| `AnnexB.AnnexBNalUnits` | docs/webrtc/whep-sei-extract.js:95-108 | The scanning loop refines the recursive specification |
| `AnnexB.TrimTrailingZeros` | docs/webrtc/whep-sei-extract.js:111-115 | The trimming loop |
| `LengthPrefixed.WalkExact` | docs/webrtc/whep-sei-extract.js:72-84 | The walk accepts a buffer with these units iff it is their serialisation and each is non-empty with its forbidden bit clear |
| `LengthPrefixed.WalkSound` | docs/webrtc/whep-sei-extract.js:72-84 | A non-null result re-serialises to the very buffer |
| `LengthPrefixed.WalkComplete` | docs/webrtc/whep-sei-extract.js:72-84 | Every serialised list of such units is walked back |
| `LengthPrefixed.LengthPrefixedNalUnits` | docs/webrtc/whep-sei-extract.js:72-84 | The loop refines the walk |
| `KlvDeliveryLaws.RunConserves` | docs/webrtc/whep-klv.js:64-116 | Conservation over every run: pushed records are the emitted, suppressed, waiting and cleared ones, as multisets |
| `KlvDeliveryLaws.RunInv` | docs/webrtc/whep-klv.js:54-117 | Every reachable state: at most pendingMax frames wait, their timestamps differ, each holds its own records, and the window is the last keys emitted |
| `KlvDeliveryLaws.RunSpacesDuplicates` | docs/webrtc/whep-klv.js:104-116 | With dedupe on, two emissions of one key are at least 4096 emissions apart |
| `KlvDeliveryLaws.PaintedExact` | docs/webrtc/whep-klv.js:77-85 | A paint emits exactly the due frames in order and leaves none that is due |
| `KlvDeliveryLaws.DueInOrderExact` | docs/webrtc/whep-klv.js:77-85 | Those are the waiting frames at or before the timestamp in serial order, oldest first across the wrap |
| `KlvDeliveryLaws.OlderFirst` | docs/webrtc/whep-klv.js:26-28 | Sorting by signed distance from the paint is serial-number order |
| `KlvDeliveryLaws.PushWhileLocked` | docs/webrtc/whep-klv.js:64-74 | While paint-locked a push emits nothing, except through the backstop, which releases the oldest frame and leaves pendingMax |
| `KlvCarriages.RecordReachesViewerOnce` | docs/webrtc/whep-klv.js:10-23 | From the server's bytes to the viewer over every run: the SEI and the data-channel message parse to two copies under one key; once the SEI copy waits, whatever else was pushed, painted or cleared, the paint, flush or backstop that takes its frame out delivers exactly one; and the key goes out again only after 4096 other deliveries |
| `KlvCarriages.RunDeliversOnce` | docs/webrtc/whep-klv.js:62-116 | Over every run, however a frame goes out, by a due paint, a flush or the backstop, a key in its SEI that is not in the window is delivered exactly once and as its SEI copy |
| `KlvCarriages.StepKeepsWaiting` | docs/webrtc/whep-klv.js:62-116 | Every other operation short of a clear delivers nothing of the key and keeps the frame with its records |
| `KlvCarriages.ArrivalDeliversOnce` | docs/webrtc/whep-klv.js:62-65 | With nothing to wait for the first copy to arrive is delivered and, while its key is in the window, no other |
| `KlvCarriages.PaintDeliversOnce` | docs/webrtc/whep-klv.js:99-116 | The same from any state that keeps the invariant |
| `KlvCarriages.BothCarriagesOnce` | docs/webrtc/whep-klv.js:99-116 | Both copies pushed in either order, then a paint: one emission, the SEI copy |
| `KlvCarriages.FramesDeliverOnce` | docs/webrtc/whep-klv.js:99-116 | Over the frames of one paint a key not in the window is emitted once |
| `KlvCarriages.ListDeliversOnce` | docs/webrtc/whep-klv.js:104-116 | Over one list too, as its first copy |
| `KlvCarriages.SeiCopyFirst` | docs/webrtc/whep-klv.js:99-102 | Within a frame the SEI copy comes before the data-channel copy |
| `KlvCarriages.MessageExact` | crates/tst-webrtc/src/server/media.rs:478-485 | A data-channel message parses to a record iff it is the body the server builds for it |
| `KlvQueueModel.Fnv1a` | docs/webrtc/whep-klv.js:31-35 | The hash loop is the fold of its step over the bytes |
| `KlvQueueModel.KlvQueue.constructor` | docs/webrtc/whep-klv.js:55-62 | An empty queue with its configuration |
| `KlvQueueModel.KlvQueue.Emit` | docs/webrtc/whep-klv.js:104-116 | Duplicate suppressed, or emitted and remembered with the oldest key forgotten |
| `KlvQueueModel.KlvQueue.EmitFrame` | docs/webrtc/whep-klv.js:99-102 | SEI records, then data-channel records |
| `KlvQueueModel.KlvQueue.Push` | docs/webrtc/whep-klv.js:64-74 | Refines the push step |
| `KlvQueueModel.KlvQueue.Painted` | docs/webrtc/whep-klv.js:77-85 | Refines the paint step |
| `KlvQueueModel.KlvQueue.FlushAll` | docs/webrtc/whep-klv.js:88-92 | Refines the flush step |
| `KlvQueueModel.KlvQueue.Clear` | docs/webrtc/whep-klv.js:95-97 | Refines the clear step |
| `RekeyBudget.BoundHoldsIff` | crates/rist-sys/build.rs:564-576 | The rate bound, exactly: from any history, what every run at non-zero times up to a time admits conforms iff that time is more than 16 intervals before the end of the 64-bit clock |
| `RekeyBudget.BudgetGoneNearEnd` | crates/rist-sys/build.rs:564-576 | Where it fails: later than that the due time wraps, and any number of requests at one instant is admitted |
| `RekeyBudget.RateBound` | crates/rist-sys/build.rs:545-607 | Over every run from either caller, in any order and from any history, at non-zero times more than 16 intervals before the end of the clock: n admissions from t1 to tn satisfy n <= 16 + (tn - t1) / interval |
| `RekeyBudget.ZeroTimesAside` | crates/rist-sys/build.rs:566-569 | Requests at a failed clock read are let through and change no other answer |
| `RekeyBudget.AdmitsAllIffConforms` | crates/rist-sys/build.rs:564-576 | From a full budget, at times so far from the end of the clock, all requests of a run are admitted iff they conform to the bound pairwise |
| `RekeyBudget.FairIff` | crates/rist-sys/build.rs:564-576 | Which holds of every run up to a time iff that time is more than 16 intervals before the end of the clock |
| `RekeyBudget.RateBoundTight` | crates/rist-sys/build.rs:559-576 | A run that uses the bound up to the last request is admitted whole |
| `RekeyBudget.BudgetRefinesBucket` | crates/rist-sys/build.rs:550-576 | At such times the one timestamp answers every request as an explicit bucket of 16 refilled one per interval does |
| `RekeyBudget.RefinesIff` | crates/rist-sys/build.rs:550-576 | Which again holds of every run up to a time iff that time is more than 16 intervals before the end of the clock |
| `RekeyBudget.FreshIsFull` | crates/rist-sys/build.rs:598-607 | A fresh passphrase is a full bucket |
| `RekeyBudget.AdmittedConform` | crates/rist-sys/build.rs:564-576 | The admitted times of every run that ends so early conform pairwise |
| `RekeyBudget.AfterMovesOn` | crates/rist-sys/build.rs:570-575 | An admission moves the due time on by an interval iff the sum fits 64 bits |
| `RekeyBudget.AfterGrows` | crates/rist-sys/build.rs:564-576 | At times so far from the end it then lies at most 16 intervals ahead, and a refusal leaves it |
| `RekeyBudget.RistKey.RekeyAdmit` | crates/rist-sys/build.rs:564-576 | The in-place update refines admit and due time |
| `RekeyBudget.RistKey.Rekey` | crates/rist-sys/build.rs:577-597 | Both callers spend the budget before adopting the nonce; a refusal keeps the key |
| `RekeyBudget.RistKey.SetPassphrase` | crates/rist-sys/build.rs:598-607 | Resets the budget |
| `StagingLaws.BuildExact` | crates/rist-sys/build.rs:644-732 | After a successful build a target holds its in-order patched text, a staged vendor file its vendor bytes, and every other path what it held |
| `StagingLaws.BuildIgnoresOrder` | crates/rist-sys/build.rs:648-732 | Neither the panic nor the files left by a build, failed or not, depend on directory order |
| `StagingLaws.SecondBuildIsIdle` | crates/rist-sys/build.rs:644-647 | A second build, in any directory order, writes no file at all |
| `StagingLaws.ListingExact` | crates/rist-sys/build.rs:648-680 | The walk lists a path iff a file is there and nothing on the way is skipped |
| `Staging.Stage.WriteIfChanged` | crates/rist-sys/build.rs:803-810 | Writes only when missing or different |
| `Staging.Stage.CopyDir` | crates/rist-sys/build.rs:649-676 | The recursive copy writes exactly the listing |
| `Staging.Stage.Run` | crates/rist-sys/build.rs:837-839 | Staging and then patching is `Build`, with the same panic; a build that fails has staged the tree and written the targets before the failing one, no more |
| `Staging.Stage.ApplyFixups` | crates/rist-sys/build.rs:690-732 | Patches every target from the pristine vendor text in table order, or stops at the first failure with those before it written |
| `Staging.PatchesDone` | crates/rist-sys/build.rs:697-731 | Without a failure that is every target |
| `Staging.TargetList` | crates/rist-sys/build.rs:691-696 | Targets in table order, each once |
| `SourceFixups.PatchFile` | crates/rist-sys/build.rs:697-731 | One file's fixups in order with every failure path |
| `SourceFixups.Patched` | crates/rist-sys/build.rs:697-731 | A file that is patched at all contains every new text of its fixups |
| `SourceFixups.Erased` | crates/rist-sys/build.rs:719-729 | The erasure check passes iff every new text is still there |
| `SourceFixups.CountOneExact` | crates/rist-sys/build.rs:705-706 | The count is 1 iff the text has one non-overlapping match |
| `SourceFixups.OnceWhenBorderless` | crates/rist-sys/build.rs:705-706 | That is exactly one occurrence when the pattern does not overlap itself |
| `SourceFixups.OverlappingMatchesCountOnce` | crates/rist-sys/build.rs:705-706 | A witness: overlapping occurrences count as one |
| `SourceFixups.ReplacedContains` | crates/rist-sys/build.rs:706-706 | A replaced text contains the new text |
| `SourceFixups.UpstreamFix` | crates/rist-sys/build.rs:682-717 | When upstream carries a fix it is reported iff the fixed text no longer contains the old one; it is patched again iff the old text has one match in the fixed text and none that starts after it ends |
| `SourceFixups.UpstreamPatched` | crates/rist-sys/build.rs:697-731 | For the build of a file with that one fixup: it is then staged patched twice iff the status check passes the result, and is refused otherwise |
| `SourceFixups.UpstreamFixClear` | crates/rist-sys/build.rs:682-717 | A condition on the fixup alone: if the new text lets no match of the old one reach across its ends, the result is reported as already fixed iff the new text does not contain the old one, and patched again iff it counts it once |
| `SourceFixups.MatchesInNew` | crates/rist-sys/build.rs:682-717 | Then the old text matches in the fixed text exactly where it matches inside the new one |
| `SourceFixups.StraddleWitness` | crates/rist-sys/build.rs:682-717 | Without that condition the surrounding text matters: a result refused as matching twice though the new text holds the old one once |
| `SourceFixups.DoublePatchWitness` | crates/rist-sys/build.rs:682-717 | A witness of a double patch by one fixup, before the status check |
| `VideoPickLaws.RunPreservesDecoderState` | examples/sending/mux_to_hls.rs:347-394 | Over every run with one codec on the PID, a decoder holds after the first push exactly the parameter sets of all that PID's units up to it, if the keyframe is pushed as it came or none of its units opens 80 00 01; else those and over them exactly the sets that spilled out |
| `VideoPickLaws.RunExact` | examples/sending/mux_to_hls.rs:347-394 | What a run pushes: the first keyframe of the first non-AV1 PID, completed, then every later unit of that PID untouched |
| `VideoPickLaws.FirstPushSplits` | examples/sending/mux_to_hls.rs:243-282 | The first push splits into the keyframe's units, or, rewritten, into the rewritten units iff no unit of the keyframe opens 80 00 01 |
| `VideoPickLaws.FirstPushDecodes` | examples/sending/mux_to_hls.rs:243-282 | The first push gives a decoder the sets of all skipped units overridden by its own, and over them exactly the sets behind start codes that rewriting spelled |
| `VideoPickLaws.FirstPushKeepsPicture` | examples/sending/mux_to_hls.rs:243-282 | The delimiters stay first, and every unit that is no parameter set survives, once and in order, iff the keyframe is not rewritten or none of its units opens 80 00 01 |
| `VideoPickLaws.RewrittenShape` | examples/sending/mux_to_hls.rs:243-282 | Delimiters, then sets in strict key order, then the rest |
| `VideoPickLaws.RewrittenSets` | examples/sending/mux_to_hls.rs:243-282 | The rewritten unit holds the kept sets overridden by its own |
| `VideoPickLaws.NothingLacking` | examples/sending/mux_to_hls.rs:243-261 | A keyframe left alone lacked nothing |
| `NalUnits.SplitInvertsWrite` | examples/sending/mux_to_hls.rs:165-199 | Writing units behind 4-byte codes and splitting gives them back iff no unit holds a start code |
| `NalUnits.SplitWritten` | crates/tst-core/src/mpegts/demux/payload.rs:24-50 | In every case each unit is read back on its own, as the units between the start codes in it |
| `NalUnits.SplitWritable` | crates/tst-core/src/mpegts/demux/payload.rs:24-50 | What the splitter returns can be written back iff no unit opened 80 00 01 |
| `NalUnits.RebuiltNoCode` | examples/sending/mux_to_hls.rs:165-199 | Rebuilding a unit's header spells a start code iff the unit opens 80 00 01 |
| `NalUnits.RereadSpelled` | examples/sending/mux_to_hls.rs:165-199 | Such a unit is read back as whatever unit its bytes from the fourth on are |
| `NalUnits.ParseInvertsWrite` | crates/tst-core/src/mpegts/demux/payload.rs:58-218 | The rebuilt header parses to the fields it was built from |
| `NalUnits.WriteInvertsParse` | examples/sending/mux_to_hls.rs:165-199 | And is the header that was parsed iff its forbidden bit is clear |
| `NalUnits.ForbiddenBitBreaksRewriting` | examples/sending/mux_to_hls.rs:165-199 | A witness: with the bit set, rewriting makes an SPS that was never sent |
| `SetMap.InsertMap` | examples/sending/mux_to_hls.rs:229-235 | Inserting in the ordered map overrides that key alone |
| `SetMap.InsertSorted` | examples/sending/mux_to_hls.rs:229-235 | And keeps the keys strictly ascending |
| `SetMap.RetainMap` | examples/sending/mux_to_hls.rs:257-262 | Retaining drops exactly the keyframe's own keys |
| `SetMap.KeyTotal` | examples/sending/mux_to_hls.rs:73-82 | The key order is total |
| `VideoPickModel.VideoPick.constructor` | examples/sending/mux_to_hls.rs:214-222 | Nothing selected, nothing kept |
| `VideoPickModel.VideoPick.RememberParams` | examples/sending/mux_to_hls.rs:229-235 | Keeps the latest copy of each set |
| `VideoPickModel.VideoPick.PrefixForKeyframe` | examples/sending/mux_to_hls.rs:243-282 | Rewrites the first keyframe or leaves it, and forgets the kept sets |
| `VideoPickModel.VideoPick.Admit` | examples/sending/mux_to_hls.rs:287-302 | PID selection, the AV1 flag and the first-keyframe gate |
| `VideoPickModel.Turn` | examples/sending/mux_to_hls.rs:362-389 | One turn of the event loop |
| `VideoPickModel.Remux` | examples/sending/mux_to_hls.rs:347-394 | The event loop pushes exactly what the specification says |
| `ListenerRules.RunInv` | examples/receiving/srt_listener_rules.rs:85-170 | The invariant of every interleaving: one lock holder, counts, rules and restores in step |
| `ListenerRules.CountIsPublishers` | examples/receiving/srt_listener_rules.rs:120-124 | The count of a name is its workers not yet ended plus one being started |
| `ListenerRules.FreeNameHasOriginalRule` | examples/receiving/srt_listener_rules.rs:145-168 | With no restore under way, a name with no publisher has exactly the operator's rule, or none |
| `ListenerRules.LiveNameIsLocked` | examples/receiving/srt_listener_rules.rs:112-124 | A live name, once marked, refuses the next caller |
| `ListenerRules.QuietListenerIsAsConfigured` | examples/receiving/srt_listener_rules.rs:145-168 | When all publishers are gone the table is as configured |
| `ListenerRules.NeverFails` | examples/receiving/srt_listener_rules.rs:154-156 | The decrement never misses its key or underflows |
| `ListenerRace.NeverTwoIffSpaced` | examples/receiving/srt_listener_rules.rs:112-124 | One publisher per name, exactly: over every run and every way each point of it can go on without another handshake, a name never has two publishers iff every caller of it that was let in found none waiting, in hand or serving |
| `ListenerRace.RushMakesTwo` | examples/receiving/srt_listener_rules.rs:112-124 | From any state in which one more was let in, the threads' own steps reach two publishers |
| `ListenerRules.SecondCallerCanSlipIn` | examples/receiving/srt_listener_rules.rs:112-118 | The documented race, as a run: two publishers of one name at once |
| `ReleaseGateLaws.GateExact` | scripts/gen/qualification.py:385-508 | The reasons are empty iff some x86 soak passes (newest of release length standing for the commit, raw pass, legs, nothing newer against it) and some corpus row passes |
| `ReleaseGateLaws.NegativeEvidenceCounts` | scripts/gen/qualification.py:398-442 | A non-pass x86 soak appended to a passing table leaves it passing iff it is older than the chosen one or its tree is superseded |
| `ReleaseGateLaws.ArmAndStressNeverGate` | scripts/gen/qualification.py:398-508 | arm64 soaks and stress rows change no reason |
| `ReleaseGateLaws.PickExact` | scripts/gen/qualification.py:353-367 | The pick is the newest release-length soak standing for the commit, if there is any |
| `ReleaseGateLaws.PickFallback` | scripts/gen/qualification.py:353-367 | Otherwise it is the newest of release length, and with none of those the newest of any length |
| `ReleaseGateLaws.NegativeExact` | scripts/gen/qualification.py:422-435 | No negative reason iff no newer non-pass soak is equivalent or unresolvable |
| `ReleaseGateLaws.CorpusExact` | scripts/gen/qualification.py:443-493 | No corpus reason iff the newest equivalent row meets every rule and no newer non-pass row is unresolvable |
| `ReleaseGateLaws.OrderNewestFirst` | scripts/gen/qualification.py:311-314 | The date order is newest first, later rows first on one day |
| `ReleaseVm.ReleaseVmGate` | scripts/gen/qualification.py:385-508 | The memoised gate equals the gate that recomputes every diff |
| `ReleaseVm.TreeMemo.Changed` | scripts/gen/qualification.py:316-330 | The memo answers as git would and stays true to it |
| `ReleaseVm.TreeMemo.StandsFor` | scripts/gen/qualification.py:332-337 | Equivalent, superseded or unresolved |
| `ReleaseVm.PickSoak` | scripts/gen/qualification.py:353-367 | The picking loop |
| `ReleaseVm.NewerRuns` | scripts/gen/qualification.py:422-435 | The loop over newer runs |
| `ReleaseVm.CorpusRows` | scripts/gen/qualification.py:443-452 | One pass finds the newest equivalent row and the unresolved ones |
| `ReleaseVm.CorpusSide` | scripts/gen/qualification.py:443-493 | The corpus half of the gate |
| `FeatureClosure.DefaultClosure` | scripts/gen/doc_tables.py:238-246 | The worklist terminates on every graph, cycles included, and returns exactly the declared features reachable from default |

## Left out

- VideoPickLaws.RunPreservesDecoderState: asks that the PID keeps one codec, since parameter sets of two codecs are not comparable.
- TsLossLaws.LossNeverSilent: says nothing about an unbounded packet whose tail was lost just before the final flush, which no receiver can tell from a whole one.
- TsLossExact.LossExact: the same, and it counts packets that parse; a whole PES packet that does not parse gives its parse error instead.
- TsLossGaps.OneGapTruthful: speaks of one gap, and asks that the bytes filled up fit the per-PID cap; several unseen gaps in one run are not covered.
- TsLossLaws.LossNeverSilent: assumes the aggregate cap is not hit, which `TsDeliveryLaws.NeverTotal` gives for any caps with room for every stream.
- KlvCarriages.RecordReachesViewerOnce: asks for at most 4096 records in the frame, since the window holds 4096 keys, and starts once the SEI copy waits.
- RekeyBudget.RateBound: the interval is a parameter, because its definition is in vendored C outside the fixup texts. Times near the end of the clock are in `RekeyBudget.BoundHoldsIff`.
- ReleaseGateLaws.GateExact: `validate_archives` appears only as the requirement that row ids are unique; dates are day numbers and a corpus row has all of its counts or none.
- Tables (PAT, PMT), their reassembly and the topology changes they cause: the declared streams are fixed for a run.
- Sync acquisition and resynchronisation: the demuxer is given whole 188-byte packets.
- PCR tracking, PTS baselines, statistics, strict modes, AU cells and LOAS positions in the demuxer; the payload offset of a gap that accompanies a damage mark; the list of PIDs an aggregate overflow names.
- The muxer's cadence (when to send tables, PCRs and heartbeats), counter resets on reconfiguration, and the codec envelopes inside a PES payload.
- `FixedRatePacer` (floating point) and actual sleeping; clocks, git, the parameter-set id parsers and the decrypt-status check are parameters.
- FNV collisions: two records with one key count as one, as in the code. Callbacks that re-enter the queue.
- I/O failures other than a sender that refuses a slice; UTF-8 validity and back-slashes in paths; paths are lists of components.
- `verdict`, `release_eligible`, the Markdown renderers and the other generators.
- The build of SRT, because it repeats the staging and patching modelled here for the build of RIST.
- JNI bindings and browser glue: they convert types and hand values on.
- The remaining examples (senders, receivers, probes): command-line and socket set-up around the library calls modelled here.
