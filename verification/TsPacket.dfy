/** 188-byte transport packets (section 2.4.3 of ISO/IEC 13818-1): the muxer's writer
    (`write_packet`), the demuxer's parser (`parse_ts_packet`) and the PCR field. */
module TsPacket {
  import opened Bytes

  const PACKET := 188
  const SYNC: byte := 0x47
  const BASE_MOD := 0x2_0000_0000

  type Pid = n: int | 0 <= n < 0x2000 witness 0
  type Counter = n: int | 0 <= n < 16 witness 0

  // ---- PCR ---------------------------------------------------------------------------

  /** The 33-bit base and the 9-bit extension of a 27 MHz value. */
  function PcrBase(pcr: u64): (b: nat)
    ensures b < BASE_MOD
  {
    pcr / 300 % BASE_MOD
  }

  function PcrExt(pcr: u64): (e: nat)
    ensures e < 300
  {
    pcr % 300
  }

  /** The 48-bit layout: base, six reserved bits set, extension. */
  function PcrField(base: nat, ext: nat): (s: seq<byte>)
    requires base < BASE_MOD && ext < 512
    ensures |s| == 6
  {
    [base / 0x200_0000 % 256, base / 0x2_0000 % 256, base / 0x200 % 256, base / 2 % 256,
     base % 2 * 128 + 0x7E + ext / 256, ext % 256]
  }

  /** `write_pcr` */
  function PcrBytes(pcr: u64): (s: seq<byte>)
    ensures |s| == 6
  {
    PcrField(PcrBase(pcr), PcrExt(pcr))
  }

  /** The base and extension of a PCR field. */
  function FieldBase(b: seq<byte>): (v: nat)
    requires |b| == 6
    ensures v < BASE_MOD
  {
    (b[0] as int) * 0x200_0000 + (b[1] as int) * 0x2_0000 + (b[2] as int) * 0x200 + (b[3] as int) * 2 + b[4] / 128
  }

  function FieldExt(b: seq<byte>): (v: nat)
    requires |b| == 6
    ensures v < 512
  {
    (b[4] % 2 as int) * 256 + b[5]
  }

  lemma PcrFieldRoundTrip(base: nat, ext: nat)
    requires base < BASE_MOD && ext < 512
    ensures FieldBase(PcrField(base, ext)) == base && FieldExt(PcrField(base, ext)) == ext
    ensures PcrField(base, ext)[4] / 2 % 64 == 63
  {
    ShiftParts(base);
  }

  lemma ShiftParts(base: nat)
    requires base < BASE_MOD
    ensures base / 0x200_0000 % 256 * 0x200_0000 + base / 0x2_0000 % 256 * 0x2_0000 + base / 0x200 % 256 * 0x200
          + base / 2 % 256 * 2 + base % 2 == base
  {
    var a := base / 2;
    var b := a / 256;
    var c := b / 256;
    assert base / 0x200 == b && base / 0x2_0000 == c && base / 0x200_0000 == c / 256;
  }

  /** Base and extension together are the value modulo the 33-bit clock. */
  lemma PcrValue(pcr: u64)
    ensures PcrBase(pcr) * 300 + PcrExt(pcr) == pcr % (BASE_MOD * 300)
  {
    var q: int, e: int := pcr / 300, pcr % 300;
    var w: int, b: int := q / BASE_MOD, q % BASE_MOD;
    Remainder(pcr, w, b * 300 + e);
  }

  lemma Remainder(v: int, w: int, r: int)
    requires v == w * (BASE_MOD * 300) + r && 0 <= r < BASE_MOD * 300
    ensures v % (BASE_MOD * 300) == r
  {
  }

  // ---- writing -----------------------------------------------------------------------

  /** What a packet's adaptation field carries. */
  datatype Adaptation = Adaptation(randomAccess: bool, pcr: Option<u64>)

  const NOTHING := Adaptation(false, None)

  function MinSize(af: Adaptation): (n: nat)
    ensures n <= 8
  {
    if af == NOTHING then 0 else 2 + if af.pcr.Some? then 6 else 0
  }

  /** The adaptation field's bytes before stuffing: what it must carry, else what padding a
      short payload needs. */
  function Overhead(af: Adaptation, payload: nat): (n: nat)
    ensures n <= 8
  {
    if MinSize(af) > 0 then MinSize(af)
    else if payload < 184 then (if payload == 183 then 1 else 2)
    else 0
  }

  /** Payload bytes that fit beside it. */
  function Consumed(af: Adaptation, payload: nat): (n: nat)
    ensures n <= payload && (payload > 0 ==> n > 0)
  {
    var room := 184 - Overhead(af, payload);
    if room < payload then room else payload
  }

  function Stuffing(af: Adaptation, payload: nat): (n: nat)
    ensures Overhead(af, payload) + n + Consumed(af, payload) == 184
  {
    184 - Overhead(af, payload) - Consumed(af, payload)
  }

  function Filler(n: nat): (s: seq<byte>)
    ensures |s| == n
  {
    seq(n, _ => 0xFF)
  }

  function AdaptationFlagsByte(af: Adaptation): (b: byte)
  {
    (if af.randomAccess then 0x40 else 0) + (if af.pcr.Some? then 0x10 else 0)
  }

  /** What follows the length byte, stuffing apart. */
  function AdaptationBody(af: Adaptation, overhead: nat): (s: seq<byte>)
  {
    if MinSize(af) > 0 then
      [AdaptationFlagsByte(af)] + (if af.pcr.Some? then PcrBytes(af.pcr.value) else [])
    else if overhead == 2 then [0]
    else []
  }

  function AdaptationBytes(af: Adaptation, payload: nat): (s: seq<byte>)
    ensures |s| == Overhead(af, payload) + if Overhead(af, payload) == 0 then 0 else Stuffing(af, payload)
  {
    var overhead, stuffing := Overhead(af, payload), Stuffing(af, payload);
    if overhead == 0 then []
    else [overhead - 1 + stuffing] + AdaptationBody(af, overhead) + Filler(stuffing)
  }

  function Header(pid: Pid, start: bool, control: nat, cc: Counter): (s: seq<byte>)
    requires control < 4
    ensures |s| == 4
  {
    [SYNC, (if start then 0x40 else 0) + pid / 256, pid % 256, control * 16 + cc]
  }

  /** `write_packet` */
  function Packet(pid: Pid, start: bool, af: Adaptation, payload: seq<byte>, cc: Counter): (s: seq<byte>)
    ensures |s| == PACKET
  {
    var n := |payload|;
    Header(pid, start, if Overhead(af, n) > 0 then 3 else 1, cc) + AdaptationBytes(af, n) + payload[..Consumed(af, n)]
  }

  /** `write_pcr_only_packet`; the counter repeats the last payload packet's. */
  function PcrOnlyPacket(pid: Pid, pcr: u64, next: Counter): (s: seq<byte>)
    ensures |s| == PACKET
  {
    Header(pid, false, 2, (next + 15) % 16) + [183, 0x10] + PcrBytes(pcr) + Filler(176)
  }

  /** Copies `s` into the buffer at `at`. */
  method Put(out: array<byte>, at: nat, s: seq<byte>) returns (end: nat)
    requires at + |s| <= out.Length
    modifies out
    ensures end == at + |s| && out[..end] == old(out[..at]) + s
  {
    for i := 0 to |s|
      invariant out[..at + i] == old(out[..at]) + s[..i]
    {
      out[at + i] := s[i];
      assert out[..at + i + 1] == out[..at + i] + [s[i]];
    }
    end := at + |s|;
    assert s[..|s|] == s;
  }

  /** Its body: what it must carry, or the flags byte of a stuffing-only field. */
  method PutBody(out: array<byte>, at: nat, af: Adaptation, overhead: nat) returns (end: nat)
    requires at + |AdaptationBody(af, overhead)| <= out.Length
    modifies out
    ensures end == at + |AdaptationBody(af, overhead)|
    ensures out[..end] == old(out[..at]) + AdaptationBody(af, overhead)
  {
    end := at;
    if MinSize(af) > 0 {
      end := Put(out, end, [AdaptationFlagsByte(af)]);
      if af.pcr.Some? {
        end := Put(out, end, PcrBytes(af.pcr.value));
      }
    } else if overhead == 2 {
      end := Put(out, end, [0]);
    }
  }

  /** The adaptation field, written at `at`. */
  method PutAdaptation(out: array<byte>, at: nat, af: Adaptation, payload: nat) returns (end: nat)
    requires Overhead(af, payload) > 0 && at + |AdaptationBytes(af, payload)| <= out.Length
    modifies out
    ensures end == at + |AdaptationBytes(af, payload)|
    ensures out[..end] == old(out[..at]) + AdaptationBytes(af, payload)
  {
    var overhead, stuffing := Overhead(af, payload), Stuffing(af, payload);
    end := Put(out, at, [overhead - 1 + stuffing]);
    end := PutBody(out, end, af, overhead);
    Assoc3(old(out[..at]), [overhead - 1 + stuffing], AdaptationBody(af, overhead));
    end := Put(out, end, Filler(stuffing));
    Assoc3(old(out[..at]), [overhead - 1 + stuffing] + AdaptationBody(af, overhead), Filler(stuffing));
  }

  lemma Assoc3(a: seq<byte>, b: seq<byte>, c: seq<byte>)
    ensures a + b + c == a + (b + c)
  {
  }

  /** The writer, filling its 188-byte buffer from the front. */
  method WritePacket(out: array<byte>, pid: Pid, start: bool, af: Adaptation, payload: seq<byte>, cc: Counter)
    returns (consumed: nat)
    requires out.Length == PACKET
    modifies out
    ensures out[..] == Packet(pid, start, af, payload, cc)
    ensures consumed == Consumed(af, |payload|)
  {
    var n := |payload|;
    consumed := Consumed(af, n);
    var control := if Overhead(af, n) > 0 then 3 else 1;
    var cursor := Put(out, 0, Header(pid, start, control, cc));
    if control == 3 {
      cursor := PutAdaptation(out, cursor, af, n);
    }
    assert out[..cursor] == Header(pid, start, control, cc) + AdaptationBytes(af, n);
    cursor := Put(out, cursor, payload[..consumed]);
    assert out[..cursor] == out[..];
  }

  // ---- parsing -----------------------------------------------------------------------

  datatype AdaptationIssue = ReservedControl | BadLengthForControl | ShortPcr

  datatype PcrIssue = InvalidReservedBits | ExtensionOutOfRange

  datatype Parsed = Parsed(pid: Pid, errorFlag: bool, scrambling: nat, start: bool, cc: Counter,
                           hasPayload: bool, pcr: Option<nat>, pcrIssue: Option<PcrIssue>,
                           adaptationIssue: Option<AdaptationIssue>,
                           discontinuity: bool, randomAccess: bool, payload: seq<byte>)

  datatype ParseError = NoSyncByte | Truncated | BadAdaptationLength

  datatype Result<+T> = Ok(value: T) | Err(error: ParseError)

  /** The PCR of an adaptation field, or what is wrong with it. */
  function ParsedPcr(b: seq<byte>): (r: (Option<nat>, Option<PcrIssue>))
    requires |b| == 6
  {
    if b[4] / 2 % 64 != 63 then (None, Some(InvalidReservedBits))
    else if FieldExt(b) > 299 then (None, Some(ExtensionOutOfRange))
    else (Some(FieldBase(b) * 300 + FieldExt(b)), None)
  }

  function AdaptationIssueOf(control: nat, length: nat, pcrFlag: bool): (r: Option<AdaptationIssue>)
  {
    if control == 0 then Some(ReservedControl)
    else if (control == 2 && length != 183) || (control == 3 && length > 182) then Some(BadLengthForControl)
    else if pcrFlag && length < 7 then Some(ShortPcr)
    else None
  }

  /** The flags byte of the adaptation field; none is set when there is no such byte. */
  function AdaptationFlags(buf: seq<byte>): (f: byte)
    requires |buf| == PACKET
  {
    if buf[3] / 32 % 2 == 1 && buf[4] >= 1 then buf[5] else 0
  }

  /** Where the payload starts. */
  function PayloadAt(buf: seq<byte>): (at: nat)
    requires |buf| == PACKET
  {
    if buf[3] / 32 % 2 == 1 then 5 + (buf[4] as int) else 4
  }

  /** `parse_ts_packet` */
  function Parse(buf: seq<byte>): (r: Result<Parsed>)
  {
    if |buf| != PACKET then Err(Truncated)
    else if buf[0] != SYNC then Err(NoSyncByte)
    else if PayloadAt(buf) > PACKET then Err(BadAdaptationLength)
    else
      var control := buf[3] / 16 % 4;
      var length := if control >= 2 then buf[4] else 0;
      var flags := AdaptationFlags(buf);
      var pcrFlag := flags / 16 % 2 == 1;
      var (pcr, pcrIssue) := if pcrFlag && length >= 7 then ParsedPcr(buf[6..12]) else (None, None);
      Ok(Parsed((buf[1] % 32 as int) * 256 + buf[2], buf[1] >= 128, buf[3] / 64, buf[1] / 64 % 2 == 1, buf[3] % 16,
                control % 2 == 1, pcr, pcrIssue, AdaptationIssueOf(control, length, pcrFlag),
                flags >= 128, flags / 64 % 2 == 1,
                if control % 2 == 1 then buf[PayloadAt(buf)..] else []))
  }

  /** The PCR reader of the file server (`parse_pcr`), which checks less: neither the reserved
      bits nor the extension's range nor the field's fit. */
  function ReadPcr(buf: seq<byte>): (r: Option<nat>)
  {
    if |buf| < PACKET || buf[0] != SYNC then None
    else if buf[3] / 32 % 2 == 0 || buf[4] < 7 || buf[5] / 16 % 2 == 0 then None
    else Some(FieldBase(buf[6..12]) * 300 + FieldExt(buf[6..12]))
  }
}
