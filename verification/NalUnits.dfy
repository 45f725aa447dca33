/** Typed NAL units: the demuxer's splitter (`split_nals`) and the Annex B writer of
    `mux_to_hls` (`annex_b_nal`), which rebuilds the header from its parsed fields. */
module NalUnits {
  import opened Bytes
  import AnnexB
  import AnnexBJoin

  datatype Nal =
    | Avc(nalType: byte, refIdc: byte, payload: seq<byte>)
    | Hevc(nalType: byte, layerId: byte, temporalIdPlus1: byte, payload: seq<byte>)
    | Vvc(nalType: byte, layerId: byte, temporalIdPlus1: byte, payload: seq<byte>)

  /** Header fields as wide as the header has room for; an H.266 layer above 55 is reserved
      and never kept. */
  predicate InRange(u: Nal) {
    match u
    case Avc(t, r, _) => t < 32 && r < 4
    case Hevc(t, l, i, _) => t < 64 && l < 64 && i < 8
    case Vvc(t, l, i, _) => t < 32 && l <= 55 && i < 8
  }

  type NalUnit = u: Nal | InRange(u) witness Avc(0, 0, [])

  predicate Fits(u: NalUnit, codec: VideoCodec) {
    match u
    case Avc(_, _, _) => codec == H264
    case Hevc(_, _, _, _) => codec == H265
    case Vvc(_, _, _, _) => codec == H266
  }

  /** One NAL unit from its bytes (`parse_one_nal`): None for a truncated header and for the
      H.266 units a receiver must discard. The forbidden bit is not kept. */
  function Parsed(nal: seq<byte>, codec: VideoCodec): (u: Option<NalUnit>)
    ensures u.Some? ==> Fits(u.value, codec)
  {
    match codec
    case H264 =>
      if nal == [] then None
      else Some(Avc(nal[0] % 32, nal[0] / 32 % 4, nal[1..]))
    case H265 =>
      if |nal| < 2 then None
      else Some(Hevc(nal[0] / 2 % 64, nal[0] % 2 * 32 + nal[1] / 8, nal[1] % 8, nal[2..]))
    case H266 =>
      if |nal| < 2 then None
      else if nal[0] / 64 % 2 == 1 || nal[0] % 64 > 55 then None
      else Some(Vvc(nal[1] / 8, nal[0] % 64, nal[1] % 8, nal[2..]))
    case Av1 => None
  }

  function ParsedAll(slices: seq<seq<byte>>, codec: VideoCodec): (us: seq<NalUnit>)
    ensures forall u | u in us :: Fits(u, codec)
  {
    if slices == [] then []
    else
      var rest := ParsedAll(slices[1..], codec);
      match Parsed(slices[0], codec)
      case None => rest
      case Some(u) => [u] + rest
  }

  /** The NAL units of an access unit; AV1 has none. */
  function Split(raw: seq<byte>, codec: VideoCodec): (us: seq<NalUnit>)
    ensures forall u | u in us :: Fits(u, codec)
  {
    if codec == Av1 then [] else ParsedAll(AnnexB.Slices(raw), codec)
  }

  /** The unit's bytes, header rebuilt. */
  function NalBytes(u: NalUnit): (s: seq<byte>)
  {
    match u
    case Avc(t, r, payload) => [r * 32 + t] + payload
    case Hevc(t, l, i, payload) => [t * 2 + l / 32, l % 32 * 8 + i] + payload
    case Vvc(t, l, i, payload) => [l, t * 8 + i] + payload
  }

  /** `annex_b_nal` */
  function AnnexBNal(u: NalUnit): (s: seq<byte>)
  {
    [0, 0, 0, 1] + NalBytes(u)
  }

  lemma HevcParses(u: NalUnit)
    requires u.Hevc?
    ensures Parsed(NalBytes(u), H265) == Some(u)
  {
    Packed2(u.nalType, u.layerId / 32);
    Packed8(u.layerId % 32, u.temporalIdPlus1);
    assert NalBytes(u)[2..] == u.payload;
  }

  lemma VvcParses(u: NalUnit)
    requires u.Vvc?
    ensures Parsed(NalBytes(u), H266) == Some(u)
  {
    Packed8(u.nalType, u.temporalIdPlus1);
    assert NalBytes(u)[2..] == u.payload;
  }

  /** A unit's bytes, header rebuilt, parse to the unit. */
  lemma ParseInvertsWrite(u: NalUnit, codec: VideoCodec)
    requires Fits(u, codec)
    ensures Parsed(NalBytes(u), codec) == Some(u)
  {
    match u
    case Avc(t, r, payload) =>
      Packed32(r, t);
      assert NalBytes(u)[1..] == payload;
    case Hevc(_, _, _, _) =>
      HevcParses(u);
    case Vvc(_, _, _, _) =>
      VvcParses(u);
  }

  lemma Packed32(hi: nat, lo: nat)
    requires lo < 32
    ensures (hi * 32 + lo) / 32 == hi && (hi * 32 + lo) % 32 == lo
  {}

  lemma Packed8(hi: nat, lo: nat)
    requires lo < 8
    ensures (hi * 8 + lo) / 8 == hi && (hi * 8 + lo) % 8 == lo
  {}

  lemma Packed2(hi: nat, lo: nat)
    requires lo < 2
    ensures (hi * 2 + lo) / 2 == hi && (hi * 2 + lo) % 2 == lo
  {}

  /** The two header bytes of an H.265 unit, from their fields. */
  lemma HevcHeader(a: byte, b: byte)
    requires a < 128
    ensures var t: int, l: int, i: int := a / 2 % 64, a % 2 * 32 + b / 8, b % 8;
            t * 2 + l / 32 == a && l % 32 * 8 + i == b && 0 <= l < 64
  {
    var hi: int, lo: int := a % 2, b / 8;
    assert (hi * 32 + lo) / 32 == hi && (hi * 32 + lo) % 32 == lo;
  }

  /** The bytes of a unit with the forbidden bit of its header cleared. */
  function Cleared(nal: seq<byte>): (r: seq<byte>)
    requires nal != []
    ensures |r| == |nal|
  {
    [nal[0] % 128] + nal[1..]
  }

  lemma LowBits(b: byte)
    ensures b / 32 % 4 * 32 + b % 32 == b % 128 && b / 2 % 64 * 2 + b % 2 == b % 128
  {
  }

  lemma HevcRebuilt(nal: seq<byte>)
    requires |nal| >= 2
    ensures NalBytes(Parsed(nal, H265).value) == Cleared(nal)
  {
    LowBits(nal[0]);
    HevcHeader(nal[0] % 128, nal[1]);
    assert nal[1..] == [nal[1]] + nal[2..];
  }

  lemma VvcRebuilt(nal: seq<byte>)
    requires Parsed(nal, H266).Some?
    ensures NalBytes(Parsed(nal, H266).value) == Cleared(nal)
  {
    assert nal[1..] == [nal[1]] + nal[2..];
  }

  /** The rebuilt header is the header that was parsed, its forbidden bit cleared. */
  lemma Rebuilt(nal: seq<byte>, codec: VideoCodec)
    requires Parsed(nal, codec).Some?
    ensures nal != [] && NalBytes(Parsed(nal, codec).value) == Cleared(nal)
  {
    match codec
    case H264 => LowBits(nal[0]);
    case H265 => HevcRebuilt(nal);
    case H266 => VvcRebuilt(nal);
    case Av1 =>
  }

  lemma SmallByte(b: byte)
    ensures b % 128 == b <==> b < 128
  {
  }

  lemma WriteInvertsParse(nal: seq<byte>, codec: VideoCodec)
    requires Parsed(nal, codec).Some?
    ensures nal != [] && (NalBytes(Parsed(nal, codec).value) == nal <==> nal[0] < 128)
  {
    hide NalBytes, Parsed;
    Rebuilt(nal, codec);
    SmallByte(nal[0]);
    assert nal == [nal[0]] + nal[1..];
    assert Cleared(nal)[0] == nal[0] % 128;
  }

  // ---- what the cleared bit can spell ------------------------------------------------

  /** With its forbidden bit cleared the unit opens with a start code. */
  predicate Spells(nal: seq<byte>) {
    |nal| >= 3 && nal[0] == 0x80 && nal[1] == 0 && nal[2] == 1
  }

  /** Rebuilding a unit makes a start code exactly when the unit opens with 80 00 01. */
  lemma RebuiltNoCode(nal: seq<byte>, codec: VideoCodec)
    requires Parsed(nal, codec).Some? && AnnexB.NoCode(nal)
    ensures AnnexB.NoCode(NalBytes(Parsed(nal, codec).value)) <==> !Spells(nal)
  {
    Rebuilt(nal, codec);
    var r := Cleared(nal);
    if Spells(nal) {
      assert AnnexB.CodeEndsAt(r, 2);
    } else {
      forall q | 0 <= q < |r| ensures !AnnexB.CodeEndsAt(r, q) {
        assert !AnnexB.CodeEndsAt(nal, q);
      }
    }
  }

  /** Such a unit has NAL type 0 in every codec. */
  lemma SpellsType(nal: seq<byte>, codec: VideoCodec)
    requires Spells(nal) && codec != Av1
    ensures Parsed(nal, codec).Some? && Parsed(nal, codec).value.nalType == 0
  {
  }

  /** Units that survive being written and split again: no start code in their bytes. */
  ghost predicate Writable(us: seq<NalUnit>, codec: VideoCodec) {
    forall u | u in us :: Fits(u, codec) && AnnexB.NoCode(NalBytes(u))
  }

  function Flat(chunks: seq<seq<byte>>): (s: seq<byte>)
  {
    if chunks == [] then [] else chunks[0] + Flat(chunks[1..])
  }

  function Written(us: seq<NalUnit>): (r: seq<seq<byte>>)
    ensures |r| == |us| && forall k | 0 <= k < |us| :: r[k] == AnnexBNal(us[k])
  {
    seq(|us|, k requires 0 <= k < |us| => AnnexBNal(us[k]))
  }

  /** The units one after another, each behind a 4-byte start code. */
  function WriteAll(us: seq<NalUnit>): seq<byte> { Flat(Written(us)) }

  /** Some unit of the access unit opens with 80 00 01. */
  ghost predicate SpellsCode(raw: seq<byte>) {
    exists k | 0 <= k < |AnnexB.Slices(raw)| :: Spells(AnnexB.Slices(raw)[k])
  }

  lemma {:induction false} ParsedAllWritable(slices: seq<seq<byte>>, codec: VideoCodec)
    requires codec != Av1 && forall k | 0 <= k < |slices| :: AnnexB.NoCode(slices[k])
    ensures Writable(ParsedAll(slices, codec), codec) <==> forall k | 0 <= k < |slices| :: !Spells(slices[k])
  {
    if slices != [] {
      var rest := slices[1..];
      assert forall k | 0 <= k < |rest| :: rest[k] == slices[k + 1];
      ParsedAllWritable(rest, codec);
      FirstWritable(slices, codec);
      assert forall k | 0 < k < |slices| :: slices[k] == rest[k - 1];
    }
  }

  lemma FirstWritable(slices: seq<seq<byte>>, codec: VideoCodec)
    requires codec != Av1 && slices != [] && AnnexB.NoCode(slices[0])
    ensures Writable(ParsedAll(slices, codec), codec)
       <==> !Spells(slices[0]) && Writable(ParsedAll(slices[1..], codec), codec)
  {
    var u, rest := Parsed(slices[0], codec), ParsedAll(slices[1..], codec);
    if u.Some? {
      RebuiltNoCode(slices[0], codec);
      WritableCons(u.value, rest, codec);
    } else if Spells(slices[0]) {
      SpellsType(slices[0], codec);
    }
  }

  lemma WritableCons(u: NalUnit, us: seq<NalUnit>, codec: VideoCodec)
    ensures Writable([u] + us, codec) <==> Fits(u, codec) && AnnexB.NoCode(NalBytes(u)) && Writable(us, codec)
  {
    assert forall v :: v in [u] + us <==> v == u || v in us;
  }

  lemma SlicesClean(raw: seq<byte>)
    ensures forall k | 0 <= k < |AnnexB.Slices(raw)| :: AnnexB.NoCode(AnnexB.Slices(raw)[k])
  {
    forall k | 0 <= k < |AnnexB.Slices(raw)| ensures AnnexB.NoCode(AnnexB.Slices(raw)[k]) {
      AnnexB.SlicesAfterHaveNoCode(raw, 0, k);
    }
  }

  /** What the splitter returns can be written back exactly when no unit opens with 80 00 01. */
  lemma SplitWritable(raw: seq<byte>, codec: VideoCodec)
    requires codec != Av1
    ensures Writable(Split(raw, codec), codec) <==> !SpellsCode(raw)
  {
    SlicesClean(raw);
    ParsedAllWritable(AnnexB.Slices(raw), codec);
  }

  // ---- writing and splitting ---------------------------------------------------------

  /** What one unit is read back as: the units between the start codes in its bytes. */
  function Reread(u: NalUnit, codec: VideoCodec): (r: seq<NalUnit>)
  {
    ParsedAll(AnnexB.SlicesFrom(NalBytes(u), 0, 0), codec)
  }

  function Rereads(us: seq<NalUnit>, codec: VideoCodec): (r: seq<NalUnit>)
  {
    if us == [] then [] else Reread(us[0], codec) + Rereads(us[1..], codec)
  }

  lemma {:induction false} RereadsConcat(a: seq<NalUnit>, b: seq<NalUnit>, codec: VideoCodec)
    ensures Rereads(a + b, codec) == Rereads(a, codec) + Rereads(b, codec)
  {
    if a == [] {
      assert a + b == b;
    } else {
      assert (a + b)[0] == a[0] && (a + b)[1..] == a[1..] + b;
      RereadsConcat(a[1..], b, codec);
    }
  }

  lemma {:induction false} ParsedAllConcat(a: seq<seq<byte>>, b: seq<seq<byte>>, codec: VideoCodec)
    ensures ParsedAll(a + b, codec) == ParsedAll(a, codec) + ParsedAll(b, codec)
  {
    if a == [] {
      assert a + b == b;
    } else {
      assert (a + b)[0] == a[0] && (a + b)[1..] == a[1..] + b;
      ParsedAllConcat(a[1..], b, codec);
    }
  }

  lemma WriteAllCons(us: seq<NalUnit>)
    requires us != []
    ensures WriteAll(us) == AnnexBJoin.CODE + NalBytes(us[0]) + WriteAll(us[1..])
  {
    assert Written(us)[1..] == Written(us[1..]);
    assert AnnexBNal(us[0]) == AnnexBJoin.CODE + NalBytes(us[0]);
  }

  lemma NothingWritten()
    ensures WriteAll([]) == [] && AnnexB.Slices([]) == []
  {
  }

  lemma SlicesOfFirst(us: seq<NalUnit>)
    requires us != []
    ensures AnnexB.Slices(WriteAll(us)) == AnnexB.SlicesFrom(NalBytes(us[0]), 0, 0) + AnnexB.Slices(WriteAll(us[1..]))
  {
    hide *;
    var x, rest := NalBytes(us[0]), us[1..];
    WriteAllCons(us);
    if rest == [] {
      NothingWritten();
      assert AnnexBJoin.CODE + x + WriteAll(rest) == AnnexBJoin.CODE + x;
      AnnexBJoin.SlicesBehindCode(x);
    } else {
      WriteAllCons(rest);
      var y := NalBytes(rest[0]) + WriteAll(rest[1..]);
      assert WriteAll(rest) == AnnexBJoin.CODE + y;
      AnnexBJoin.SlicesBehindTwo(x, y);
    }
  }

  /** Written units are read back each on its own, whatever start codes they hold. */
  lemma {:induction false} SplitWritten(us: seq<NalUnit>, codec: VideoCodec)
    requires codec != Av1
    ensures Split(WriteAll(us), codec) == Rereads(us, codec)
  {
    if us != [] {
      SplitWritten(us[1..], codec);
      SlicesOfFirst(us);
      ParsedAllConcat(AnnexB.SlicesFrom(NalBytes(us[0]), 0, 0), AnnexB.Slices(WriteAll(us[1..])), codec);
    }
  }

  lemma RereadWhole(u: NalUnit, codec: VideoCodec)
    requires Fits(u, codec) && AnnexB.NoCode(NalBytes(u))
    ensures Reread(u, codec) == [u]
  {
    var x := NalBytes(u);
    AnnexB.SliceToEnd(x, 0, 0);
    ParseInvertsWrite(u, codec);
    var slices: seq<seq<byte>> := [x];
    assert x[0..] == x && slices[1..] == [];
    assert ParsedAll(slices, codec) == [u] + ParsedAll([], codec);
  }

  /** Bytes of a list of units, headers included. */
  function Weight(us: seq<NalUnit>): nat
  {
    if us == [] then 0 else |NalBytes(us[0])| + Weight(us[1..])
  }

  lemma {:induction false} WeightConcat(a: seq<NalUnit>, b: seq<NalUnit>)
    ensures Weight(a + b) == Weight(a) + Weight(b)
  {
    if a == [] {
      assert a + b == b;
    } else {
      assert (a + b)[0] == a[0] && (a + b)[1..] == a[1..] + b;
      WeightConcat(a[1..], b);
    }
  }

  lemma {:induction false} ParsedWeight(slices: seq<seq<byte>>, codec: VideoCodec)
    ensures Weight(ParsedAll(slices, codec)) <= AnnexBJoin.TotalLen(slices)
  {
    if slices != [] {
      ParsedWeight(slices[1..], codec);
      var u, rest := Parsed(slices[0], codec), ParsedAll(slices[1..], codec);
      if u.Some? {
        Rebuilt(slices[0], codec);
        assert ([u.value] + rest)[1..] == rest;
      }
    }
  }

  /** A unit with a start code inside loses bytes. */
  lemma RereadWeight(u: NalUnit, codec: VideoCodec)
    ensures Weight(Reread(u, codec)) <= |NalBytes(u)|
    ensures !AnnexB.NoCode(NalBytes(u)) ==> Weight(Reread(u, codec)) < |NalBytes(u)|
  {
    var x := NalBytes(u);
    ParsedWeight(AnnexB.SlicesFrom(x, 0, 0), codec);
    AnnexBJoin.TotalSlices(x, 0, 0);
    if !AnnexB.NoCode(x) {
      AnnexBJoin.CodeCosts(x);
    }
  }

  lemma {:induction false} RereadsWeight(us: seq<NalUnit>, codec: VideoCodec)
    requires forall u | u in us :: Fits(u, codec)
    ensures Weight(Rereads(us, codec)) <= Weight(us)
    ensures !Writable(us, codec) ==> Weight(Rereads(us, codec)) < Weight(us)
  {
    if us != [] {
      RereadWeight(us[0], codec);
      RereadsWeight(us[1..], codec);
      WeightConcat(Reread(us[0], codec), Rereads(us[1..], codec));
      assert us == [us[0]] + us[1..] && us[0] in us;
      WritableCons(us[0], us[1..], codec);
    }
  }

  lemma {:induction false} RereadsWhole(us: seq<NalUnit>, codec: VideoCodec)
    requires Writable(us, codec)
    ensures Rereads(us, codec) == us
  {
    if us != [] {
      assert us == [us[0]] + us[1..];
      WritableCons(us[0], us[1..], codec);
      RereadWhole(us[0], codec);
      RereadsWhole(us[1..], codec);
    }
  }

  /** Writing a list of units and splitting the bytes gives the list back, trailing zeros of
      a payload included, if and only if no unit holds a start code. */
  lemma SplitInvertsWrite(us: seq<NalUnit>, codec: VideoCodec)
    requires codec != Av1 && forall u | u in us :: Fits(u, codec)
    ensures Split(WriteAll(us), codec) == us <==> Writable(us, codec)
  {
    SplitWritten(us, codec);
    RereadsWeight(us, codec);
    if Writable(us, codec) {
      RereadsWhole(us, codec);
    }
  }

  /** The unit behind the start code that a cleared bit spells, if its header parses. */
  function Phantom(nal: seq<byte>, codec: VideoCodec): (r: seq<NalUnit>)
    requires |nal| >= 3
  {
    match Parsed(nal[3..], codec)
    case None => []
    case Some(u) => [u]
  }

  /** A rewritten 80 00 01 unit is read back as what follows those three bytes. */
  lemma RereadSpelled(nal: seq<byte>, codec: VideoCodec)
    requires codec != Av1 && Spells(nal) && AnnexB.NoCode(nal) && Parsed(nal, codec).Some?
    ensures Reread(Parsed(nal, codec).value, codec) == Phantom(nal, codec)
  {
    Rebuilt(nal, codec);
    var x := Cleared(nal);
    assert AnnexB.StartCodeAt(x, 0) == 3;
    forall p | 5 <= p < |x| ensures !AnnexB.CodeEndsAt(x, p) {
      assert !AnnexB.CodeEndsAt(nal, p);
    }
    AnnexB.SliceToEnd(x, 3, 3);
    assert x[3..] == nal[3..] && x[0..0] == [];
    TwoSlices(nal[3..], codec);
  }

  lemma TwoSlices(t: seq<byte>, codec: VideoCodec)
    ensures ParsedAll([[]] + [t], codec) == match Parsed(t, codec) case None => [] case Some(u) => [u]
  {
    var one: seq<seq<byte>> := [t];
    assert ([[]] + one)[1..] == one && one[1..] == [];
    assert ParsedAll(one, codec) == match Parsed(t, codec) case None => [] case Some(u) => [u];
  }

  lemma {:induction false} FlatConcat(a: seq<seq<byte>>, b: seq<seq<byte>>)
    ensures Flat(a + b) == Flat(a) + Flat(b)
  {
    if a == [] {
      assert a + b == b;
    } else {
      FlatConcat(a[1..], b);
      assert (a + b)[0] == a[0] && (a + b)[1..] == a[1..] + b;
      Regroup(a[0], Flat(a[1..]), Flat(b));
    }
  }

  lemma Regroup(a: seq<byte>, b: seq<byte>, c: seq<byte>)
    ensures a + (b + c) == a + b + c
  {
  }

  lemma WrittenConcat(a: seq<NalUnit>, b: seq<NalUnit>)
    ensures Written(a + b) == Written(a) + Written(b)
  {
    forall k | 0 <= k < |a + b| ensures Written(a + b)[k] == (Written(a) + Written(b))[k] {
      assert (a + b)[k] == if k < |a| then a[k] else b[k - |a|];
    }
  }

  lemma WriteAllConcat(a: seq<NalUnit>, b: seq<NalUnit>)
    ensures WriteAll(a + b) == WriteAll(a) + WriteAll(b)
  {
    WrittenConcat(a, b);
    FlatConcat(Written(a), Written(b));
  }

  /** For one: an H.264 unit 80 00 01 67 is rebuilt as 00 00 01 67, and the decoder then finds
      an SPS that was never sent. */
  lemma ForbiddenBitBreaksRewriting(nal: seq<byte>)
    requires nal == [0x80, 0x00, 0x01, 0x67]
    ensures Reread(Parsed(nal, H264).value, H264) == [Avc(7, 3, [])]
  {
    assert AnnexB.NoCode(nal);
    RereadSpelled(nal, H264);
    var sps: seq<byte> := [0x67];
    assert nal[3..] == sps && sps[1..] == [];
  }
}
