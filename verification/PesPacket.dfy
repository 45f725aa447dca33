/** PES packets (section 2.4.3.6 of ISO/IEC 13818-1): the muxer's header writer
    (`write_pes_header`, `write_pts`) and the demuxer's parser (`parse_complete`). */
module PesPacket {
  import opened Bytes
  import opened TsPacket

  const PTS_MOD := 0x2_0000_0000

  /** Bits of the optional header that the muxer never sets are left out of what it writes. */
  datatype Stamps = NoStamp | PtsOnly(pts: int) | PtsAndDts(pts: int, dts: int)

  /** What the muxer puts in one PES packet. `bounded` packets declare their length. */
  datatype PesUnit = PesUnit(streamId: byte, stamps: Stamps, bounded: bool, aligned: bool, payload: seq<byte>)

  function StampSize(t: Stamps): (n: nat)
    ensures n <= 10
  {
    match t case NoStamp => 0 case PtsOnly(_) => 5 case PtsAndDts(_, _) => 10
  }

  /** The declared length must fit 16 bits; the muxer's callers cap the payload for that. */
  predicate Fits(u: PesUnit)
  {
    u.bounded ==> 3 + StampSize(u.stamps) + |u.payload| < 0x1_0000
  }

  // ---- time stamps -------------------------------------------------------------------

  /** The low 33 bits of a signed 64-bit value. */
  function Masked(v: int): (m: nat)
    ensures m < PTS_MOD
  {
    v % PTS_MOD
  }

  function StampBytes(v: nat, marker: nat): (s: seq<byte>)
    requires v < PTS_MOD && marker < 16
    ensures |s| == 5
  {
    [marker * 16 + v / 0x4000_0000 * 2 + 1, v / 0x40_0000 % 256, v / 0x8000 % 128 * 2 + 1,
     v / 128 % 256, v % 128 * 2 + 1]
  }

  function StampValue(b: seq<byte>): (v: nat)
    requires |b| == 5
    ensures v < PTS_MOD
  {
    (b[0] / 2 % 8 as int) * 0x4000_0000 + ((b[1] as int) * 128 + b[2] / 2) * 0x8000 + (b[3] as int) * 128 + b[4] / 2
  }

  predicate StampMarkersOk(b: seq<byte>)
    requires |b| == 5
  {
    b[0] % 2 == 1 && b[2] % 2 == 1 && b[4] % 2 == 1
  }

  lemma StampParts(v: nat)
    requires v < PTS_MOD
    ensures v / 0x4000_0000 < 8
    ensures v / 0x4000_0000 * 0x4000_0000 + (v / 0x40_0000 % 256 * 128 + v / 0x8000 % 128) * 0x8000
          + v / 128 % 256 * 128 + v % 128 == v
  {
    var a := v / 128;
    var b := a / 256;
    var c := b / 128;
    assert v / 0x8000 == b && v / 0x40_0000 == c && v / 0x4000_0000 == c / 256;
  }

  lemma LeadByte(marker: nat, hi: nat)
    requires marker < 16 && hi < 8
    ensures var b := marker * 16 + hi * 2 + 1; b / 2 % 8 == hi && b / 16 == marker && b % 2 == 1
  {
  }

  lemma StampRoundTrip(v: nat, marker: nat)
    requires v < PTS_MOD && marker < 16
    ensures var b := StampBytes(v, marker);
            StampValue(b) == v && StampMarkersOk(b) && b[0] / 16 == marker
  {
    StampParts(v);
    LeadByte(marker, v / 0x4000_0000);
    var p, q := v / 0x8000 % 128, v % 128;
    assert (p * 2 + 1) / 2 == p && (q * 2 + 1) / 2 == q;
    var b := StampBytes(v, marker);
    assert b[1] == v / 0x40_0000 % 256 && b[2] / 2 == p && b[3] == v / 128 % 256 && b[4] / 2 == q;
  }

  // ---- writing -----------------------------------------------------------------------

  function StampField(t: Stamps): (s: seq<byte>)
    ensures |s| == StampSize(t)
  {
    match t
    case NoStamp => []
    case PtsOnly(p) => StampBytes(Masked(p), 2)
    case PtsAndDts(p, d) => StampBytes(Masked(p), 3) + StampBytes(Masked(d), 1)
  }

  function StampFlags(t: Stamps): (n: nat)
    ensures n < 4
  {
    match t case NoStamp => 0 case PtsOnly(_) => 2 case PtsAndDts(_, _) => 3
  }

  /** The length field: 0 when unbounded, else what follows it. */
  function DeclaredLength(u: PesUnit): (n: nat)
    requires Fits(u)
    ensures n < 0x1_0000 && (n == 0 <==> !u.bounded)
  {
    if u.bounded then 3 + StampSize(u.stamps) + |u.payload| else 0
  }

  function PesHeader(u: PesUnit): (s: seq<byte>)
    requires Fits(u)
    ensures |s| == 9 + StampSize(u.stamps)
  {
    [0, 0, 1, u.streamId, DeclaredLength(u) / 256, DeclaredLength(u) % 256, if u.aligned then 0x84 else 0x80,
     StampFlags(u.stamps) * 64, StampSize(u.stamps)] + StampField(u.stamps)
  }

  function PesBytes(u: PesUnit): (s: seq<byte>)
    requires Fits(u)
    ensures |s| == 9 + StampSize(u.stamps) + |u.payload|
  {
    PesHeader(u) + u.payload
  }

  // ---- parsing -----------------------------------------------------------------------

  datatype HeaderIssue = InvalidMarkerBits | ForbiddenPtsDtsFlags | HeaderDataLengthTooShort
                       | InvalidPtsPrefix | InvalidPtsDtsMarkerBits | InvalidDtsPrefix

  datatype Pes = Pes(pid: Pid, streamId: byte, pts: Option<nat>, dts: Option<nat>, randomAccess: bool,
                     aligned: bool, issues: seq<HeaderIssue>, payload: seq<byte>)

  datatype PesFault = NoStartCode | TooShortForHeader | TooShortForHeaderData

  /** Shorter than a start code, id and length; unparseable; or a packet. */
  datatype PesResult = TooShort | Bad(fault: PesFault) | Got(pes: Pes)

  /** Table 2-21: the stream ids that carry the optional header. */
  predicate HasOptionalHeader(streamId: byte)
  {
    0xBD <= streamId <= 0xFE && streamId !in {0xBE, 0xBF, 0xF0, 0xF1, 0xF2, 0xF8}
  }

  function When(c: bool, i: HeaderIssue): (r: seq<HeaderIssue>)
  {
    if c then [i] else []
  }

  function StampIssues(b: seq<byte>, prefix: nat, wrong: HeaderIssue): (r: seq<HeaderIssue>)
    requires |b| == 5
  {
    When(b[0] / 16 != prefix, wrong) + When(!StampMarkersOk(b), InvalidPtsDtsMarkerBits)
  }

  /** `parse_complete`; its two checks that a time stamp lies inside the buffer always hold,
      since the header data length has been checked by then. */
  function ParsePes(pid: Pid, buf: seq<byte>, randomAccess: bool): (r: PesResult)
  {
    if |buf| < 6 then TooShort
    else if buf[0] != 0 || buf[1] != 0 || buf[2] != 1 then Bad(NoStartCode)
    else if !HasOptionalHeader(buf[3]) then Got(Pes(pid, buf[3], None, None, randomAccess, false, [], buf[6..]))
    else if |buf| < 9 then Bad(TooShortForHeader)
    else if |buf| < 9 + (buf[8] as int) then Bad(TooShortForHeaderData)
    else
      var flags, n := buf[7] / 64, buf[8] as int;
      var hasPts, hasDts := flags >= 2 && n >= 5, flags == 3 && n >= 10;
      var needed := if flags == 2 then 5 else if flags == 3 then 10 else 0;
      Got(Pes(pid, buf[3],
              if hasPts then Some(StampValue(buf[9..14])) else None,
              if hasDts then Some(StampValue(buf[14..19])) else None,
              randomAccess, buf[6] / 4 % 2 == 1,
              When(buf[6] / 64 != 2, InvalidMarkerBits)
              + When(flags == 1, ForbiddenPtsDtsFlags)
              + When(n < needed, HeaderDataLengthTooShort)
              + (if hasPts then StampIssues(buf[9..14], flags, InvalidPtsPrefix) else [])
              + (if hasDts then StampIssues(buf[14..19], 1, InvalidDtsPrefix) else []),
              buf[9 + n..]))
  }

  // ---- round trip --------------------------------------------------------------------

  function Read(t: Stamps): (r: (Option<nat>, Option<nat>))
  {
    match t
    case NoStamp => (None, None)
    case PtsOnly(p) => (Some(Masked(p)), None)
    case PtsAndDts(p, d) => (Some(Masked(p)), Some(Masked(d)))
  }

  /** What a receiver should get from a unit. */
  function Received(pid: Pid, u: PesUnit, randomAccess: bool): (p: Pes)
  {
    Pes(pid, u.streamId, Read(u.stamps).0, Read(u.stamps).1, randomAccess, u.aligned, [], u.payload)
  }

  /** The fixed bytes of a header. */
  lemma HeaderFront(u: PesUnit)
    requires Fits(u)
    ensures var h := PesHeader(u);
            && h[0] == 0 && h[1] == 0 && h[2] == 1 && h[3] == u.streamId
            && (h[4] as int) * 256 + h[5] == DeclaredLength(u)
            && h[6] / 64 == 2 && (h[6] / 4 % 2 == 1 <==> u.aligned)
            && h[7] / 64 == StampFlags(u.stamps) && h[8] == StampSize(u.stamps)
            && h[9..] == StampField(u.stamps)
  {
    TwoBytes(DeclaredLength(u));
  }

  lemma TwoBytes(n: nat)
    requires n < 0x1_0000
    ensures n / 256 < 256 && n / 256 * 256 + n % 256 == n
  {
  }

  /** The same in the written packet. */
  lemma PesFront(u: PesUnit)
    requires Fits(u)
    ensures var s := PesBytes(u);
            && s[0] == 0 && s[1] == 0 && s[2] == 1 && s[3] == u.streamId
            && (s[4] as int) * 256 + s[5] == DeclaredLength(u)
            && s[6] / 64 == 2 && (s[6] / 4 % 2 == 1 <==> u.aligned)
            && s[7] / 64 == StampFlags(u.stamps) && s[8] == StampSize(u.stamps)
            && s[9 + StampSize(u.stamps)..] == u.payload
            && s[9..9 + StampSize(u.stamps)] == StampField(u.stamps)
  {
    var s, h := PesBytes(u), PesHeader(u);
    HeaderFront(u);
    assert s[..|h|] == h;
    assert forall i | 0 <= i < 9 :: s[i] == h[i];
    assert s[9..9 + StampSize(u.stamps)] == h[9..];
  }

  lemma PesStamps(u: PesUnit)
    requires Fits(u)
    ensures var s := PesBytes(u);
            && (u.stamps != NoStamp ==>
                  StampValue(s[9..14]) == Masked(u.stamps.pts)
                  && StampIssues(s[9..14], StampFlags(u.stamps), InvalidPtsPrefix) == [])
            && (u.stamps.PtsAndDts? ==>
                  StampValue(s[14..19]) == Masked(u.stamps.dts) && StampIssues(s[14..19], 1, InvalidDtsPrefix) == [])
  {
    PesFront(u);
    var s := PesBytes(u);
    match u.stamps
    case NoStamp =>
    case PtsOnly(p) =>
      StampRoundTrip(Masked(p), 2);
    case PtsAndDts(p, d) =>
      StampRoundTrip(Masked(p), 3);
      StampRoundTrip(Masked(d), 1);
      assert s[9..14] == s[9..19][..5] == StampBytes(Masked(p), 3);
      assert s[14..19] == s[9..19][5..] == StampBytes(Masked(d), 1);
  }

  /** Parsing undoes writing, exactly for the stream ids that have the optional header: the
      33-bit stamps, the alignment flag and the payload come back with no issue raised. */
  lemma PesRoundTrip(pid: Pid, u: PesUnit, randomAccess: bool)
    requires Fits(u)
    ensures ParsePes(pid, PesBytes(u), randomAccess) == Got(Received(pid, u, randomAccess))
       <==> HasOptionalHeader(u.streamId)
  {
    PesFront(u);
    PesStamps(u);
    var s := PesBytes(u);
    if !HasOptionalHeader(u.streamId) {
      assert |s[6..]| > |u.payload|;
    }
  }
}
