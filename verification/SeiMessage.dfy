/** The KLV-in-SEI message (`sei_message`, section 7.3.2.3.1 of ITU-T H.264): the Rust
    server's builder and the JavaScript player's parser. */
module SeiMessage {
  import opened Bytes
  import opened EmulationPrevention
  import AnnexB

  const KLV_SEI_UUID: seq<byte> := [
    0x74, 0x73, 0x74, 0x4b, 0x4c, 0x56, 0x00, 0x01, 0x8c, 0xa0, 0x4e, 0x0d, 0x9b, 0x2f, 0x11, 0xe9]
  const SEI_VERSION: byte := 1
  const USER_DATA_UNREGISTERED: byte := 5
  const PREFIX_LEN := 16 + 1 + 8

  datatype KlvRecord = KlvRecord(pts: u64, bytes: seq<byte>)

  /** `n` as a sum of bytes: as many 0xFF as fit, and the rest, which is below 255. */
  function FfCoded(n: nat): (s: seq<byte>)
    ensures s != []
  {
    if n >= 255 then [0xFF] + FfCoded(n - 255) else [n]
  }

  /** The value coded at `i` and where it ends; None if no byte below 0xFF ends it. */
  function FfValue(r: seq<byte>, i: nat): (v: Option<(nat, nat)>)
    ensures v.Some? ==> i < v.value.1 <= |r|
    decreases |r| - i
  {
    if i >= |r| then None
    else if r[i] != 0xFF then Some((r[i], i + 1))
    else
      match FfValue(r, i + 1)
      case None => None
      case Some((n, j)) => Some((n + 0xFF, j))
  }

  /** The message body: UUID, version, big-endian PTS, record. */
  function KlvBody(rec: KlvRecord): (s: seq<byte>)
    ensures |s| == PREFIX_LEN + |rec.bytes|
  {
    KLV_SEI_UUID + [SEI_VERSION] + BigEndian(rec.pts, 8) + rec.bytes
  }

  function KlvRbsp(rec: KlvRecord): (s: seq<byte>)
  {
    [USER_DATA_UNREGISTERED] + FfCoded(|KlvBody(rec)|) + KlvBody(rec) + [0x80]
  }

  function SeiHeader(codec: VideoCodec): (h: Option<seq<byte>>)
  {
    match codec
    case H264 => Some([0x06])
    case H265 => Some([0x4E, 0x01])
    case _ => None
  }

  /** The bare SEI NAL unit of one record, for a codec that has one. */
  function KlvNal(codec: VideoCodec, rec: KlvRecord): (nal: seq<byte>)
    requires SeiHeader(codec).Some?
  {
    SeiHeader(codec).value + Escaped(KlvRbsp(rec))
  }

  /** `build_klv_sei_nal` over `build_user_data_unregistered_sei_nal`; None is its
      UnsupportedCodec error. */
  method BuildKlvSeiNal(codec: VideoCodec, pts: u64, klv: seq<byte>) returns (nal: Option<seq<byte>>)
    ensures nal == if SeiHeader(codec).None? then None else Some(KlvNal(codec, KlvRecord(pts, klv)))
  {
    var header := SeiHeader(codec);
    if header.None? { return None; }
    var payload := [SEI_VERSION] + BigEndian(pts, 8) + klv;
    var size := |KLV_SEI_UUID| + |payload|;
    var rbsp: seq<byte> := [0x05];
    var n := size;
    while n >= 255
      invariant n >= 0 && rbsp + FfCoded(n) == [0x05] + FfCoded(size)
    {
      rbsp := rbsp + [0xFF];
      n := n - 255;
    }
    rbsp := rbsp + [n];
    rbsp := rbsp + KLV_SEI_UUID + payload + [0x80];
    assert KLV_SEI_UUID + payload == KlvBody(KlvRecord(pts, klv));
    assert rbsp == KlvRbsp(KlvRecord(pts, klv));
    var out := AppendRbspEscaped(header.value, rbsp);
    nal := Some(out);
  }

  /** What an unescaped SEI body holds. */
  function RbspRecord(r: seq<byte>): (rec: Option<KlvRecord>)
  {
    match FfValue(r, 0)
    case None => None
    case Some((kind, i)) =>
      if kind != USER_DATA_UNREGISTERED then None
      else
        match FfValue(r, i)
        case None => None
        case Some((size, j)) =>
          if size < PREFIX_LEN || j + size > |r| then None
          else BodyRecord(r[j..j + size])
  }

  function BodyRecord(body: seq<byte>): (rec: Option<KlvRecord>)
    requires |body| >= PREFIX_LEN
  {
    if body[..16] != KLV_SEI_UUID || body[16] != SEI_VERSION then None
    else
      FromBigEndianRoundTrip(body[17..25]);
      Pow256Words();
      Some(KlvRecord(FromBigEndian(body[17..25]), body[25..]))
  }

  function SeiRecord(escaped: seq<byte>): Option<KlvRecord> { RbspRecord(Unescaped(escaped)) }

  /** `readFfCoded`; `pos` is the cursor, the second result its new place. */
  method ReadFfCoded(r: seq<byte>, pos: nat) returns (value: Option<nat>, i: nat)
    ensures match FfValue(r, pos) case None => value == None case Some((n, j)) => value == Some(n) && i == j
  {
    var v: nat := 0;
    i := pos;
    while true
      invariant FfValue(r, pos) ==
                match FfValue(r, i) case None => None case Some((n, j)) => Some((n + v, j))
      decreases |r| - i
    {
      if i >= |r| { return None, i; }
      var b: int := r[i];
      i := i + 1;
      v := v + b;
      if b != 0xFF { return Some(v), i; }
    }
  }

  /** `parseKlvSeiRbsp` */
  method ParseKlvSeiRbsp(escaped: seq<byte>) returns (rec: Option<KlvRecord>)
    ensures rec == SeiRecord(escaped)
  {
    var r := Unescape(escaped);
    var kind, i := ReadFfCoded(r, 0);
    if kind != Some(USER_DATA_UNREGISTERED as nat) { return None; }
    var size, j := ReadFfCoded(r, i);
    if size == None || size.value < PREFIX_LEN || j + size.value > |r| { return None; }
    var body := r[j..j + size.value];
    rec := ParseKlvBody(body);
  }

  method ParseKlvBody(body: seq<byte>) returns (rec: Option<KlvRecord>)
    requires |body| >= PREFIX_LEN
    ensures rec == BodyRecord(body)
  {
    for k := 0 to 16
      invariant forall m | 0 <= m < k :: body[m] == KLV_SEI_UUID[m]
    {
      if body[k] != KLV_SEI_UUID[k] {
        assert body[..16][k] != KLV_SEI_UUID[k];
        return None;
      }
    }
    assert body[..16] == KLV_SEI_UUID;
    if body[16] != SEI_VERSION { return None; }
    var pts: nat := 0;
    for k := 17 to PREFIX_LEN
      invariant pts == FromBigEndian(body[17..k])
    {
      assert body[17..k + 1][..k - 17] == body[17..k];
      pts := pts * 256 + body[k];
    }
    FromBigEndianRoundTrip(body[17..25]);
    Pow256Words();
    rec := Some(KlvRecord(pts, body[PREFIX_LEN..]));
  }

  lemma {:induction false} FfCodedRoundTrip(r: seq<byte>, i: nat, n: nat)
    requires i <= |r| && FfCoded(n) <= r[i..]
    ensures FfValue(r, i) == Some((n, i + |FfCoded(n)|))
    decreases n
  {
    assert r[i] == r[i..][0] == FfCoded(n)[0];
    if n >= 255 {
      assert r[i + 1..] == r[i..][1..];
      assert FfCoded(n - 255) == FfCoded(n)[1..];
      FfCodedRoundTrip(r, i + 1, n - 255);
    }
  }

  lemma BodyRoundTrip(rec: KlvRecord)
    ensures BodyRecord(KlvBody(rec)) == Some(rec)
  {
    var body := KlvBody(rec);
    assert body[..16] == KLV_SEI_UUID;
    assert body[17..25] == BigEndian(rec.pts, 8);
    assert body[25..] == rec.bytes;
    Pow256Words();
    BigEndianRoundTrip(rec.pts, 8);
  }

  lemma RbspRoundTrip(rec: KlvRecord)
    ensures RbspRecord(KlvRbsp(rec)) == Some(rec)
  {
    var r, body := KlvRbsp(rec), KlvBody(rec);
    var size := FfCoded(|body|);
    assert r[0] == 5 && FfValue(r, 0) == Some((5, 1));
    assert r[1..] == size + (body + [0x80]);
    FfCodedRoundTrip(r, 1, |body|);
    assert r[1 + |size|..1 + |size| + |body|] == body;
    BodyRoundTrip(rec);
  }

  /** The player's parser reads back every record the server's builder wrote, whatever the
      PTS and the bytes. */
  lemma SeiRoundTrip(rec: KlvRecord)
    ensures SeiRecord(Escaped(KlvRbsp(rec))) == Some(rec)
  {
    UnescapeEscape(KlvRbsp(rec));
    RbspRoundTrip(rec);
  }

  lemma {:induction false} EscapedLast(s: seq<byte>, zeros: nat)
    requires s != []
    ensures var e := EscapedFrom(s, zeros); e != [] && e[|e| - 1] == s[|s| - 1]
    decreases |s|
  {
    if |s| > 1 {
      EscapedLast(s[1..], if zeros >= 2 && s[0] <= 3 then Run(0, s[0]) else Run(zeros, s[0]));
    }
  }

  /** A built SEI unit can be framed: no start code inside, no zero at its end. */
  lemma KlvNalClean(codec: VideoCodec, rec: KlvRecord)
    requires SeiHeader(codec).Some?
    ensures AnnexB.Clean(KlvNal(codec, rec))
  {
    var h, e := SeiHeader(codec).value, Escaped(KlvRbsp(rec));
    var nal := KlvNal(codec, rec);
    EscapedLast(KlvRbsp(rec), 0);
    EscapedIsWellEscaped(KlvRbsp(rec));
    forall q | 0 <= q < |nal| ensures !AnnexB.CodeEndsAt(nal, q) {
      if AnnexB.CodeEndsAt(nal, q) {
        assert q - 2 >= |h|;
        var k := q - 2 - |h|;
        assert e[k] == 0 && e[k + 1] == 0 && e[k + 2] == 1;
        WellEscapedAt(e, k);
      }
    }
  }
}
