/** The packet parsers undo the packet writers, field by field. */
module TsPacketLaws {
  import opened Bytes
  import opened TsPacket

  /** The header's fields come back, whatever follows. */
  lemma HeaderFields(pid: Pid, start: bool, control: nat, cc: Counter)
    requires control < 4
    ensures var h := Header(pid, start, control, cc);
            && h[0] == SYNC && (h[1] % 32 as int) * 256 + h[2] == pid && h[1] < 128 && (h[1] / 64 % 2 == 1 <==> start)
            && h[3] / 64 == 0 && h[3] / 16 % 4 == control && (h[3] / 32 % 2 == 1 <==> control >= 2) && h[3] % 16 == cc
  {
  }

  /** What a demuxer reads back from a packet of `payload` bytes. */
  function Carried(pid: Pid, start: bool, af: Adaptation, payload: seq<byte>, cc: Counter): (p: Parsed)
  {
    Parsed(pid, false, 0, start, cc, true,
           if af.pcr.Some? then Some(af.pcr.value % (BASE_MOD * 300)) else None, None, None,
           false, af.randomAccess, payload[..Consumed(af, |payload|)])
  }

  /** The first twelve bytes of a written packet that has an adaptation field. */
  lemma PacketFront(pid: Pid, start: bool, af: Adaptation, payload: seq<byte>, cc: Counter)
    requires Overhead(af, |payload|) > 0
    ensures var s := Packet(pid, start, af, payload, cc);
            && s[..4] == Header(pid, start, 3, cc)
            && s[4] == Overhead(af, |payload|) - 1 + Stuffing(af, |payload|)
            && (MinSize(af) > 0 ==> s[5] == AdaptationFlagsByte(af))
            && (MinSize(af) == 0 && Overhead(af, |payload|) == 2 ==> s[5] == 0)
            && (af.pcr.Some? ==> s[6..12] == PcrBytes(af.pcr.value))
            && s[5 + s[4]..] == payload[..Consumed(af, |payload|)]
  {
    var n := |payload|;
    var s, a := Packet(pid, start, af, payload, cc), AdaptationBytes(af, n);
    assert s == Header(pid, start, 3, cc) + a + payload[..Consumed(af, n)];
    assert s[4..4 + |a|] == a;
    assert s[4] == a[0];
    if MinSize(af) > 0 {
      assert s[5] == a[1];
      if af.pcr.Some? {
        assert a[2..8] == PcrBytes(af.pcr.value);
        assert s[6..12] == a[2..8];
      }
    } else if Overhead(af, n) == 2 {
      assert s[5] == a[1];
    }
  }

  /** A packet opening with this header parses to these fields; the rest is its adaptation
      field's business. */
  lemma ParseHeader(s: seq<byte>, pid: Pid, start: bool, control: nat, cc: Counter)
    requires |s| == PACKET && control < 4 && s[..4] == Header(pid, start, control, cc)
    requires control >= 2 ==> 5 + (s[4] as int) <= PACKET
    ensures var r := Parse(s);
            && r.Ok? && r.value.pid == pid && !r.value.errorFlag && r.value.scrambling == 0 && r.value.start == start
            && r.value.cc == cc && r.value.hasPayload == (control % 2 == 1)
    ensures s[3] / 16 % 4 == control && (s[3] / 32 % 2 == 1 <==> control >= 2)
  {
    HeaderFields(pid, start, control, cc);
    assert forall i | 0 <= i < 4 :: s[i] == s[..4][i];
  }

  lemma ParsePlain(pid: Pid, start: bool, af: Adaptation, payload: seq<byte>, cc: Counter)
    requires Overhead(af, |payload|) == 0
    ensures Parse(Packet(pid, start, af, payload, cc)) == Ok(Carried(pid, start, af, payload, cc))
  {
    var s := Packet(pid, start, af, payload, cc);
    assert s[..4] == Header(pid, start, 1, cc);
    ParseHeader(s, pid, start, 1, cc);
    assert s[4..] == payload[..Consumed(af, |payload|)];
  }

  /** The flags an adaptation field carries. */
  lemma FlagsOf(pid: Pid, start: bool, af: Adaptation, payload: seq<byte>, cc: Counter)
    requires payload != [] && Overhead(af, |payload|) > 0
    ensures var s := Packet(pid, start, af, payload, cc);
            var flags := AdaptationFlags(s);
            && s[..4] == Header(pid, start, 3, cc) && s[4] <= 182 && (af.pcr.Some? ==> s[4] >= 7)
            && flags < 128 && (flags / 64 % 2 == 1 <==> af.randomAccess) && (flags / 16 % 2 == 1 <==> af.pcr.Some?)
  {
    PacketFront(pid, start, af, payload, cc);
    var s := Packet(pid, start, af, payload, cc);
    assert s[3] == s[..4][3];
    HeaderFields(pid, start, 3, cc);
  }

  lemma ParseAdapted(pid: Pid, start: bool, af: Adaptation, payload: seq<byte>, cc: Counter)
    requires payload != [] && Overhead(af, |payload|) > 0
    ensures Parse(Packet(pid, start, af, payload, cc)) == Ok(Carried(pid, start, af, payload, cc))
  {
    var s := Packet(pid, start, af, payload, cc);
    FlagsOf(pid, start, af, payload, cc);
    ParseHeader(s, pid, start, 3, cc);
    assert s[PayloadAt(s)..] == payload[..Consumed(af, |payload|)] by { PacketFront(pid, start, af, payload, cc); }
    if af.pcr.Some? {
      assert s[6..12] == PcrBytes(af.pcr.value) by { PacketFront(pid, start, af, payload, cc); }
      WrittenPcr(af.pcr.value);
    }
  }

  lemma WrittenPcr(pcr: u64)
    ensures ParsedPcr(PcrBytes(pcr)) == (Some(pcr % (BASE_MOD * 300)), None)
  {
    PcrFieldRoundTrip(PcrBase(pcr), PcrExt(pcr));
    PcrValue(pcr);
  }

  /** Parsing undoes writing, for every PID, flag, counter and adaptation field, and any
      non-empty payload: the payload that fitted comes back, nothing else is reported. */
  lemma ParseInvertsPacket(pid: Pid, start: bool, af: Adaptation, payload: seq<byte>, cc: Counter)
    requires payload != []
    ensures Parse(Packet(pid, start, af, payload, cc)) == Ok(Carried(pid, start, af, payload, cc))
  {
    if Overhead(af, |payload|) == 0 {
      ParsePlain(pid, start, af, payload, cc);
    } else {
      ParseAdapted(pid, start, af, payload, cc);
    }
  }

  /** The bytes of a heartbeat that are read back. */
  lemma PcrOnlyFront(pid: Pid, pcr: u64, next: Counter)
    ensures var s := PcrOnlyPacket(pid, pcr, next);
            && s[..4] == Header(pid, false, 2, (next + 15) % 16) && s[3] / 32 % 2 == 1
            && s[0] == SYNC && s[4] == 183 && s[5] == 0x10 && s[6..12] == PcrBytes(pcr)
  {
    var s := PcrOnlyPacket(pid, pcr, next);
    assert s[..4] == Header(pid, false, 2, (next + 15) % 16);
    assert s[0] == s[..4][0] && s[3] == s[..4][3];
  }

  /** A heartbeat: a PCR, no payload, the last counter again, nothing malformed. */
  lemma ParseInvertsPcrOnly(pid: Pid, pcr: u64, next: Counter)
    ensures Parse(PcrOnlyPacket(pid, pcr, next))
         == Ok(Parsed(pid, false, 0, false, (next + 15) % 16, false, Some(pcr % (BASE_MOD * 300)), None, None,
                      false, false, []))
  {
    var s := PcrOnlyPacket(pid, pcr, next);
    PcrOnlyFront(pid, pcr, next);
    ParseHeader(s, pid, false, 2, (next + 15) % 16);
    WrittenPcr(pcr);
    assert AdaptationFlags(s) == 0x10;
  }

  lemma ReadPcrFrom(s: seq<byte>, pcr: u64)
    requires |s| == PACKET && s[0] == SYNC && s[3] / 32 % 2 == 1 && s[4] >= 7 && s[5] / 16 % 2 == 1
    requires s[6..12] == PcrBytes(pcr)
    ensures ReadPcr(s) == Some(pcr % (BASE_MOD * 300))
  {
    PcrFieldRoundTrip(PcrBase(pcr), PcrExt(pcr));
    PcrValue(pcr);
  }

  /** The file server's reader agrees with the demuxer on every packet the muxer writes. */
  lemma ReadPcrInvertsPacket(pid: Pid, start: bool, af: Adaptation, payload: seq<byte>, cc: Counter)
    requires payload != []
    ensures ReadPcr(Packet(pid, start, af, payload, cc))
         == if af.pcr.Some? then Some(af.pcr.value % (BASE_MOD * 300)) else None
  {
    var s := Packet(pid, start, af, payload, cc);
    if Overhead(af, |payload|) == 0 {
      assert s[..4] == Header(pid, start, 1, cc);
      ParseHeader(s, pid, start, 1, cc);
    } else {
      FlagsOf(pid, start, af, payload, cc);
      ParseHeader(s, pid, start, 3, cc);
      if af.pcr.Some? {
        assert s[6..12] == PcrBytes(af.pcr.value) by { PacketFront(pid, start, af, payload, cc); }
        ReadPcrFrom(s, af.pcr.value);
      }
    }
  }

  lemma ReadPcrInvertsPcrOnly(pid: Pid, pcr: u64, next: Counter)
    ensures ReadPcr(PcrOnlyPacket(pid, pcr, next)) == Some(pcr % (BASE_MOD * 300))
  {
    PcrOnlyFront(pid, pcr, next);
    ReadPcrFrom(PcrOnlyPacket(pid, pcr, next), pcr);
  }

  /** The server's reader sees every PCR the demuxer accepts. */
  lemma ReadPcrCoversParse(buf: seq<byte>)
    requires Parse(buf).Ok? && Parse(buf).value.pcr.Some?
    ensures ReadPcr(buf) == Parse(buf).value.pcr
  {
  }
}
