/** From an encoded frame to its KLV records (`extractKlvSeis`), and the end-to-end
    statement: what the server put into an access unit is what the player reads. */
module KlvExtract {
  import opened Bytes
  import opened SeiMessage
  import EmulationPrevention
  import AnnexB
  import LengthPrefixed
  import FrameReading

  /** How many header bytes precede the SEI payload: 1 for H.264, 2 for H.265, and 0 for a unit
      that is no SEI under the hint. Any hint but these two allows both codecs. */
  function SeiHeaderLen(nal: seq<byte>, codec: Option<VideoCodec>): (n: nat)
    ensures n > 0 ==> n <= |nal|
  {
    if |nal| < 2 then 0
    else
      var h264 := nal[0] % 32 == 6 && nal[0] < 128;
      var h265 := nal[0] / 2 % 64 == 39 && nal[0] < 128;
      if codec == Some(H264) then if h264 then 1 else 0
      else if codec == Some(H265) then if h265 then 2 else 0
      else if h264 then 1 else if h265 then 2 else 0
  }

  /** The record a NAL unit carries, if any. */
  function UnitRecord(nal: seq<byte>, codec: Option<VideoCodec>): (rec: Option<KlvRecord>)
  {
    var hdr := SeiHeaderLen(nal, codec);
    if hdr == 0 then None else SeiRecord(nal[hdr..])
  }

  function Listed<T>(o: Option<T>): seq<T> {
    match o
    case None => []
    case Some(x) => [x]
  }

  function UnitRecords(nals: seq<seq<byte>>, codec: Option<VideoCodec>): (recs: seq<KlvRecord>)
  {
    if nals == [] then [] else Listed(UnitRecord(nals[0], codec)) + UnitRecords(nals[1..], codec)
  }

  /** `nalUnits`: the exact length-prefixed reading when there is one, else Annex B. */
  function NalUnits(buf: seq<byte>): (r: seq<seq<byte>>)
  {
    match LengthPrefixed.LengthPrefixedUnits(buf)
    case Some(units) => units
    case None => AnnexB.AnnexBUnits(buf)
  }

  function FrameRecords(buf: seq<byte>, codec: Option<VideoCodec>): seq<KlvRecord> {
    UnitRecords(NalUnits(buf), codec)
  }

  lemma UnitRecordsCons(nal: seq<byte>, nals: seq<seq<byte>>, codec: Option<VideoCodec>)
    ensures UnitRecords([nal] + nals, codec) == Listed(UnitRecord(nal, codec)) + UnitRecords(nals, codec)
  {
    assert ([nal] + nals)[1..] == nals;
  }

  lemma Regroup(a: seq<KlvRecord>, b: seq<KlvRecord>, c: seq<KlvRecord>)
    ensures a + (b + c) == a + b + c && a + [] == a && [] + a == a
  {
  }

  lemma {:induction false} UnitRecordsSnoc(nals: seq<seq<byte>>, nal: seq<byte>, codec: Option<VideoCodec>)
    ensures UnitRecords(nals + [nal], codec) == UnitRecords(nals, codec) + Listed(UnitRecord(nal, codec))
  {
    var last := Listed(UnitRecord(nal, codec));
    if nals == [] {
      assert nals + [nal] == [nal] + [];
      UnitRecordsCons(nal, [], codec);
      Regroup(last, [], []);
    } else {
      var first, rest := nals[0], nals[1..];
      assert nals == [first] + rest && nals + [nal] == [first] + (rest + [nal]);
      UnitRecordsSnoc(rest, nal, codec);
      UnitRecordsCons(first, rest, codec);
      UnitRecordsCons(first, rest + [nal], codec);
      Regroup(Listed(UnitRecord(first, codec)), UnitRecords(rest, codec), last);
    }
  }

  /** The record of one unit, if it is an SEI that carries one. */
  method UnitKlv(nal: seq<byte>, codec: Option<VideoCodec>) returns (rec: Option<KlvRecord>)
    ensures rec == UnitRecord(nal, codec)
  {
    var hdr := SeiHeaderLen(nal, codec);
    if hdr == 0 { return None; }
    rec := ParseKlvSeiRbsp(nal[hdr..]);
  }

  /** `extractKlvSeis` */
  method ExtractKlvSeis(data: seq<byte>, codec: Option<VideoCodec>) returns (out: seq<KlvRecord>)
    ensures out == FrameRecords(data, codec)
  {
    hide UnitRecord, LengthPrefixed.LengthPrefixedUnits, AnnexB.AnnexBUnits;
    out := [];
    var units: seq<seq<byte>>;
    var walked := LengthPrefixed.LengthPrefixedNalUnits(data);
    if walked.Some? { units := walked.value; } else { units := AnnexB.AnnexBNalUnits(data); }
    for k := 0 to |units|
      invariant out == UnitRecords(units[..k], codec)
    {
      assert units[..k + 1] == units[..k] + [units[k]];
      UnitRecordsSnoc(units[..k], units[k], codec);
      var rec := UnitKlv(units[k], codec);
      if rec.Some? { out := out + [rec.value]; }
    }
    assert units[..|units|] == units;
  }

  /** What a sender puts into an access unit: a KLV record, or a unit of its own. */
  datatype Item = Klv(rec: KlvRecord) | Other(nal: seq<byte>)

  function ItemNal(item: Item, codec: VideoCodec): (nal: seq<byte>)
    requires SeiHeader(codec).Some?
  {
    match item
    case Klv(rec) => KlvNal(codec, rec)
    case Other(nal) => nal
  }

  function Records(items: seq<Item>): (recs: seq<KlvRecord>)
  {
    if items == [] then []
    else (if items[0].Klv? then [items[0].rec] else []) + Records(items[1..])
  }

  /** A unit the player can set aside by its first bytes: no SEI header, or a first payload
      type byte other than 5. Told no codec, it must look past an H.265 IDR or delimiter,
      whose header byte reads as an H.264 SEI. */
  lemma ForeignByFirstBytes(nal: seq<byte>, hint: Option<VideoCodec>)
    requires var hdr := SeiHeaderLen(nal, hint); hdr == 0 || hdr == |nal| || nal[hdr] != USER_DATA_UNREGISTERED
    ensures UnitRecord(nal, hint) == None
  {
    var hdr := SeiHeaderLen(nal, hint);
    if 0 < hdr < |nal| {
      var body := nal[hdr..];
      var r := EmulationPrevention.Unescaped(body);
      assert r[0] == body[0] == nal[hdr];
      assert FfValue(r, 0).Some? && r[0] == 0xFF ==> FfValue(r, 0).value.0 >= 0xFF;
    }
  }

  /** `units` frames `items` in order, each other unit being framable and carrying no record
      of its own. */
  ghost predicate Carries(units: seq<AnnexB.Framed>, items: seq<Item>, codec: VideoCodec, hint: Option<VideoCodec>)
    requires SeiHeader(codec).Some?
  {
    && |units| == |items|
    && forall k | 0 <= k < |items| ::
         && units[k].nal == ItemNal(items[k], codec)
         && (items[k].Other? ==> AnnexB.Clean(items[k].nal) && UnitRecord(items[k].nal, hint) == None)
  }

  /** The record of a built unit, told its codec or none. */
  lemma BuiltUnitRecord(codec: VideoCodec, hint: Option<VideoCodec>, rec: KlvRecord)
    requires SeiHeader(codec).Some? && (hint == None || hint == Some(codec))
    ensures UnitRecord(KlvNal(codec, rec), hint) == Some(rec)
  {
    var nal := KlvNal(codec, rec);
    var hdr := |SeiHeader(codec).value|;
    EmulationPrevention.EscapedHeadByte(KlvRbsp(rec));
    assert SeiHeaderLen(nal, hint) == hdr;
    assert nal[hdr..] == EmulationPrevention.Escaped(KlvRbsp(rec));
    SeiRoundTrip(rec);
  }

  lemma {:induction false} CarriedRecords(units: seq<AnnexB.Framed>, items: seq<Item>,
                                          codec: VideoCodec, hint: Option<VideoCodec>)
    requires SeiHeader(codec).Some? && (hint == None || hint == Some(codec))
    requires Carries(units, items, codec, hint)
    ensures UnitRecords(AnnexB.Nals(units), hint) == Records(items)
  {
    var nals := AnnexB.Nals(units);
    if items != [] {
      assert nals[0] == ItemNal(items[0], codec);
      assert nals[1..] == AnnexB.Nals(units[1..]);
      CarriesRest(units, items, codec, hint);
      CarriedRecords(units[1..], items[1..], codec, hint);
      if items[0].Klv? { BuiltUnitRecord(codec, hint, items[0].rec); }
    }
  }

  lemma CarriesRest(units: seq<AnnexB.Framed>, items: seq<Item>, codec: VideoCodec, hint: Option<VideoCodec>)
    requires SeiHeader(codec).Some? && items != [] && Carries(units, items, codec, hint)
    ensures Carries(units[1..], items[1..], codec, hint)
  {
    forall k | 0 <= k < |items| - 1
      ensures units[1..][k].nal == ItemNal(items[1..][k], codec)
      ensures items[1..][k].Other? ==> AnnexB.Clean(items[1..][k].nal) && UnitRecord(items[1..][k].nal, hint) == None
    {
      assert units[1..][k] == units[k + 1] && items[1..][k] == items[k + 1];
    }
  }

  lemma CarriedClean(units: seq<AnnexB.Framed>, items: seq<Item>, codec: VideoCodec, hint: Option<VideoCodec>)
    requires SeiHeader(codec).Some? && Carries(units, items, codec, hint)
    ensures AnnexB.AllClean(AnnexB.Nals(units))
  {
    forall k | 0 <= k < |units| ensures AnnexB.Clean(AnnexB.Nals(units)[k]) {
      assert units[k].nal == ItemNal(items[k], codec);
      if items[k].Klv? { KlvNalClean(codec, items[k].rec); }
    }
  }

  /** A frame the length walk cannot take: it opens with more padding than a 4-byte start
      code, or with a 4-byte one before a unit whose second byte is not zero, and stays
      below 2^24 bytes. */
  predicate OpensUnambiguously(units: seq<AnnexB.Framed>, size: nat) {
    units == [] || units[0].pad >= 2 ||
    (units[0].pad == 1 && |units[0].nal| >= 2 && units[0].nal[1] != 0 && size < 0x100_0000)
  }

  lemma WalkRefusesAnnexB(units: seq<AnnexB.Framed>, tail: nat)
    requires OpensUnambiguously(units, |AnnexB.Frame(units, tail)|)
    ensures LengthPrefixed.LengthPrefixedUnits(AnnexB.Frame(units, tail)) == None
  {
    var buf := AnnexB.Frame(units, tail);
    if units == [] {
      if tail >= 4 { LengthPrefixed.WalkRefusesZeros(buf); }
    } else if units[0].pad >= 2 {
      AnnexB.FirstUnit(units, tail);
      LengthPrefixed.WalkRefusesZeros(buf);
    } else {
      WalkRefusesStartCode(units, tail);
    }
  }

  /** After 00 00 00 01 the walk reads one unit of one byte and then a length of at least 2^24. */
  lemma WalkRefusesStartCode(units: seq<AnnexB.Framed>, tail: nat)
    requires units != [] && units[0].pad == 1 && |units[0].nal| >= 2 && units[0].nal[1] != 0
    requires |AnnexB.Frame(units, tail)| < 0x100_0000
    ensures LengthPrefixed.Walk(AnnexB.Frame(units, tail)) == None
  {
    var buf := AnnexB.Frame(units, tail);
    AnnexB.FirstUnit(units, tail);
    assert buf[..4] == [0, 0, 0, 1];
    LengthPrefixed.FourBytes(buf[..4]);
    assert buf[4..][1] == units[0].nal[1];
    var rest := buf[5..];
    assert rest[0] == units[0].nal[1];
    if |rest| >= 4 {
      LengthPrefixed.FourBytes(rest[..4]);
      assert LengthPrefixed.Walk(rest) == None;
    }
  }

  /** The frame is not taken for length prefixes, or reads the same either way. */
  predicate ReadsAsFramed(units: seq<AnnexB.Framed>, tail: nat) {
    || LengthPrefixed.LengthPrefixedUnits(AnnexB.Frame(units, tail)) == None
    || (FrameReading.Twin(units, tail) && forall k | 0 <= k < |units| :: |units[k].nal| > 0 && units[k].nal[0] < 128)
  }

  /** Every frame of clean units, with any padding and any mix of start codes: its units come
      back exactly when the length walk refuses the frame, or when they are single bytes with
      a clear forbidden bit behind 4-byte start codes, which are their lengths as well. */
  lemma FrameReadIff(units: seq<AnnexB.Framed>, tail: nat)
    requires AnnexB.AllClean(AnnexB.Nals(units))
    ensures NalUnits(AnnexB.Frame(units, tail)) == AnnexB.Nals(units) <==> ReadsAsFramed(units, tail)
  {
    var frame, nals := AnnexB.Frame(units, tail), AnnexB.Nals(units);
    AnnexB.AnnexBRoundTrip(units, tail);
    if LengthPrefixed.LengthPrefixedUnits(frame).Some? {
      LengthPrefixed.WalkExact(frame, nals);
      if forall u | u in nals :: LengthPrefixed.Walkable(u) {
        WalkableUnits(units);
        FrameReading.SameBytes(units, tail);
      } else {
        NotTwin(units);
      }
    }
  }

  lemma WalkableUnits(units: seq<AnnexB.Framed>)
    requires AnnexB.AllClean(AnnexB.Nals(units)) && forall u | u in AnnexB.Nals(units) :: LengthPrefixed.Walkable(u)
    ensures forall k | 0 <= k < |units| :: AnnexB.Clean(units[k].nal) && LengthPrefixed.Walkable(units[k].nal)
  {
    forall k | 0 <= k < |units| ensures AnnexB.Clean(units[k].nal) && LengthPrefixed.Walkable(units[k].nal) {
      assert units[k].nal == AnnexB.Nals(units)[k] && AnnexB.Nals(units)[k] in AnnexB.Nals(units);
    }
  }

  lemma NotTwin(units: seq<AnnexB.Framed>)
    requires exists u | u in AnnexB.Nals(units) :: !LengthPrefixed.Walkable(u)
    ensures exists k | 0 <= k < |units| :: !(|units[k].nal| == 1 && units[k].nal[0] < 128)
  {
    var nals := AnnexB.Nals(units);
    var u :| u in nals && !LengthPrefixed.Walkable(u);
    var k :| 0 <= k < |nals| && nals[k] == u;
    assert units[k].nal == u;
  }

  /** End to end over Annex B: every access unit not taken for length prefixes, with any
      number of records and other units, any padding and any start codes, yields exactly the
      records put in, in order. */
  lemma EndToEndAnnexB(units: seq<AnnexB.Framed>, tail: nat, items: seq<Item>,
                       codec: VideoCodec, hint: Option<VideoCodec>)
    requires SeiHeader(codec).Some? && (hint == None || hint == Some(codec))
    requires Carries(units, items, codec, hint)
    requires ReadsAsFramed(units, tail)
    ensures FrameRecords(AnnexB.Frame(units, tail), hint) == Records(items)
  {
    CarriedClean(units, items, codec, hint);
    FrameReadIff(units, tail);
    CarriedRecords(units, items, codec, hint);
  }

  /** So does every one that opens unambiguously. */
  lemma EndToEndUnambiguous(units: seq<AnnexB.Framed>, tail: nat, items: seq<Item>,
                            codec: VideoCodec, hint: Option<VideoCodec>)
    requires SeiHeader(codec).Some? && (hint == None || hint == Some(codec))
    requires Carries(units, items, codec, hint)
    requires OpensUnambiguously(units, |AnnexB.Frame(units, tail)|)
    ensures FrameRecords(AnnexB.Frame(units, tail), hint) == Records(items)
  {
    WalkRefusesAnnexB(units, tail);
    EndToEndAnnexB(units, tail, items, codec, hint);
  }

  /** One record alone in a frame behind a 4-byte start code: the second byte condition is
      met by the SEI itself. */
  lemma EndToEndSingle(codec: VideoCodec, hint: Option<VideoCodec>, rec: KlvRecord)
    requires SeiHeader(codec).Some? && (hint == None || hint == Some(codec))
    requires |[0, 0, 0, 1] + KlvNal(codec, rec)| < 0x100_0000
    ensures FrameRecords([0, 0, 0, 1] + KlvNal(codec, rec), hint) == [rec]
  {
    var units := [AnnexB.Framed(1, KlvNal(codec, rec))];
    assert units[1..] == [];
    assert AnnexB.Frame(units, 0) == [0, 0, 0, 1] + KlvNal(codec, rec);
    EmulationPrevention.EscapedHeadByte(KlvRbsp(rec));
    EndToEndUnambiguous(units, 0, [Klv(rec)], codec, hint);
    assert [Klv(rec)][1..] == [];
  }

  /** An item a length-prefixed frame can carry beside records. */
  predicate Prefixable(item: Item, codec: VideoCodec, hint: Option<VideoCodec>)
    requires SeiHeader(codec).Some?
  {
    LengthPrefixed.Walkable(ItemNal(item, codec)) && (item.Other? ==> UnitRecord(item.nal, hint) == None)
  }

  lemma PrefixableWalk(items: seq<Item>, codec: VideoCodec, hint: Option<VideoCodec>)
    requires SeiHeader(codec).Some? && forall k | 0 <= k < |items| :: Prefixable(items[k], codec, hint)
    ensures forall u | u in ItemNals(items, codec) :: LengthPrefixed.Walkable(u)
  {
    var nals := ItemNals(items, codec);
    forall u | u in nals ensures LengthPrefixed.Walkable(u) {
      var k :| 0 <= k < |nals| && nals[k] == u;
      assert Prefixable(items[k], codec, hint);
    }
  }

  /** End to end over length prefixes: no ambiguity at all. */
  lemma EndToEndLengthPrefixed(items: seq<Item>, codec: VideoCodec, hint: Option<VideoCodec>)
    requires SeiHeader(codec).Some? && (hint == None || hint == Some(codec)) && items != []
    requires forall k | 0 <= k < |items| :: Prefixable(items[k], codec, hint)
    ensures FrameRecords(LengthPrefixed.Serialized(ItemNals(items, codec)), hint) == Records(items)
  {
    hide Prefixable;
    hide UnitRecords;
    hide Records;
    var nals := ItemNals(items, codec);
    PrefixableWalk(items, codec, hint);
    PrefixedUnits(nals);
    ItemRecords(items, codec, hint);
  }

  lemma PrefixedUnits(nals: seq<seq<byte>>)
    requires nals != [] && forall u | u in nals :: LengthPrefixed.Walkable(u)
    ensures NalUnits(LengthPrefixed.Serialized(nals)) == nals
  {
    LengthPrefixed.WalkExact(LengthPrefixed.Serialized(nals), nals);
  }

  function ItemNals(items: seq<Item>, codec: VideoCodec): (r: seq<seq<byte>>)
    requires SeiHeader(codec).Some?
    ensures |r| == |items| && forall k | 0 <= k < |items| :: r[k] == ItemNal(items[k], codec)
  {
    seq(|items|, k requires 0 <= k < |items| => ItemNal(items[k], codec))
  }

  lemma {:induction false} ItemRecords(items: seq<Item>, codec: VideoCodec, hint: Option<VideoCodec>)
    requires SeiHeader(codec).Some? && (hint == None || hint == Some(codec))
    requires forall k | 0 <= k < |items| :: Prefixable(items[k], codec, hint)
    ensures UnitRecords(ItemNals(items, codec), hint) == Records(items)
  {
    if items != [] {
      assert ItemNals(items, codec)[1..] == ItemNals(items[1..], codec);
      forall k | 0 <= k < |items| - 1 ensures Prefixable(items[1..][k], codec, hint) {
        assert items[1..][k] == items[k + 1];
      }
      ItemRecords(items[1..], codec, hint);
      assert Prefixable(items[0], codec, hint);
      if items[0].Klv? { BuiltUnitRecord(codec, hint, items[0].rec); }
    }
  }

  /** A 3-byte start code in front is another matter. 00 00 01 06 is also the length 262, and
      the H.265 header's 00 00 01 4e is 334, so the lone unit comes back if and only if the
      length walk refuses the frame. */
  lemma ThreeByteStartCode(codec: VideoCodec, rec: KlvRecord)
    requires SeiHeader(codec).Some?
    ensures var nal := KlvNal(codec, rec);
            var frame := [0, 0, 1] + nal;
            NalUnits(frame) == [nal] <==> LengthPrefixed.LengthPrefixedUnits(frame) == None
  {
    var nal := KlvNal(codec, rec);
    var units := [AnnexB.Framed(0, nal)];
    assert units[1..] == [];
    assert AnnexB.Frame(units, 0) == [0, 0, 1] + nal;
    KlvNalClean(codec, rec);
    assert AnnexB.Nals(units) == [nal];
    FrameReadIff(units, 0);
    assert units[0].pad == 0 && !FrameReading.Twin(units, 0);
  }

  /** Every such frame of exactly 266 bytes is misread, and its record lost. */
  lemma ThreeByteStartCodeLoses(rec: KlvRecord, hint: Option<VideoCodec>)
    requires |KlvNal(H264, rec)| == 263
    ensures FrameRecords([0, 0, 1] + KlvNal(H264, rec), hint) == []
  {
    var nal := KlvNal(H264, rec);
    var frame := [0, 0, 1] + nal;
    EmulationPrevention.EscapedHeadByte(KlvRbsp(rec));
    LengthPrefixed.FourBytes(frame[..4]);
    assert frame[..4] == [0, 0, 1, 6];
    LengthPrefixed.WalkOne(frame);
    assert NalUnits(frame) == [frame[4..]];
    assert frame[4..][0] == 5;
    assert UnitRecord(frame[4..], hint) == None;
    assert [frame[4..]][1..] == [];
    assert UnitRecords([frame[4..]], hint) == [];
  }

  lemma EightOnes()
    ensures BigEndian(0x0101_0101_0101_0101, 8) == [1, 1, 1, 1, 1, 1, 1, 1]
  {
    assert BigEndian(0x0101_0101, 4) == [1, 1, 1, 1];
    assert BigEndian(0x0101_0101_0101, 6) == [1, 1, 1, 1, 1, 1];
  }

  /** A body without two zero bytes together, under any pair of non-zero length bytes. */
  lemma BodyOfOnes(rec: KlvRecord)
    requires rec.pts == 0x0101_0101_0101_0101 && forall i | 0 <= i < |rec.bytes| :: rec.bytes[i] == 0x41
    ensures var b := KlvBody(rec); forall i | 0 <= i < |b| - 1 :: b[i] != 0 || b[i + 1] != 0
  {
    EightOnes();
  }

  /** Such records exist: 233 bytes of 0x41 under PTS 0x0101010101010101. */
  lemma ThreeByteStartCodeWitness()
    ensures exists rec: KlvRecord :: |KlvNal(H264, rec)| == 263
  {
    var bytes: seq<byte> := seq(233, _ => 0x41);
    var rec := KlvRecord(0x0101_0101_0101_0101, bytes);
    var r, b := KlvRbsp(rec), KlvBody(rec);
    assert |b| == 258;
    assert FfCoded(258) == [255, 3];
    assert r == [USER_DATA_UNREGISTERED, 255, 3] + b + [0x80];
    BodyOfOnes(rec);
    forall i | 0 <= i < |r| - 1 ensures r[i] != 0 || r[i + 1] != 0 {
      assert 3 <= i < 260 ==> r[i] == b[i - 3] && r[i + 1] == b[i - 2];
    }
    EmulationPrevention.NothingToEscape(r, 0);
    assert |KlvNal(H264, rec)| == 263;
  }
}
