/** The demuxer's packet path as the object it is: per-PID continuity and a reassembler, both
    updated in place. */
module TsDemuxerModel {
  import opened Bytes
  import opened TsPacket
  import opened PesReassembly
  import opened PesReassemblerModel
  import opened TsDemux

  class Demuxer {
    var seen: map<Pid, Continuity>
    const pes: Reassembler
    const streams: Streams

    ghost predicate Valid()
      reads this, pes
    {
      pes.Valid()
    }

    ghost function State(): (d: Demux)
      reads this, pes
    {
      Demux(seen, pes.View())
    }

    constructor (caps: Caps, streams: Streams)
      ensures Valid() && State() == IDLE && fresh(pes) && pes.caps == caps && this.streams == streams
    {
      seen := map[];
      pes := new Reassembler(caps);
      this.streams := streams;
    }

    /** `check_continuity` */
    method CheckContinuity(pkt: Parsed, raw: seq<byte>) returns (verdict: Verdict)
      modifies this
      ensures var (c, v) := Checked(old(SeenOn(State(), pkt.pid)), pkt, raw);
              verdict == v && SeenOn(State(), pkt.pid) == c
      ensures seen == old(seen)[pkt.pid := SeenOn(State(), pkt.pid)]
    {
      var c := if pkt.pid in seen then seen[pkt.pid] else UNSEEN;
      verdict := InSequence;
      if pkt.pid == NULL_PID {
        seen := seen[pkt.pid := c];
        return;
      }
      if !pkt.hasPayload {
        seen := seen[pkt.pid := if pkt.discontinuity then UNSEEN else c];
        return;
      }
      if c.cc.Some? {
        if IsRepeat(c, pkt, raw) {
          verdict := if c.repeated then Jumped else Repeat;
          seen := seen[pkt.pid := c.(repeated := true)];
          return;
        }
        if pkt.cc != (c.cc.value + 1) % 16 && !pkt.discontinuity {
          verdict := Jumped;
        }
      }
      seen := seen[pkt.pid := Continuity(Some(pkt.cc), false, Some(raw))];
    }

    /** `process_packet` */
    method ProcessPacket(raw: seq<byte>) returns (outs: seq<Outcome>)
      requires Valid()
      modifies this, pes
      ensures Valid() && (State(), outs) == Processed(pes.caps, streams, old(State()), raw)
    {
      outs := [];
      var parsed := Parse(raw);
      if Dropped(parsed) {
        return;
      }
      var pkt := parsed.value;
      var verdict := CheckContinuity(pkt, raw);
      if verdict == Repeat || !pkt.hasPayload || pkt.pid !in streams {
        return;
      }
      if verdict == Jumped {
        pes.MarkDamaged(pkt.pid);
      }
      outs := pes.Push(pkt.pid, pkt.payload, pkt.start, pkt.randomAccess, streams[pkt.pid]);
    }
  }
}
