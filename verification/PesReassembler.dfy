/** The reassembler as the object it is: a map of partial packets and a byte counter, both
    updated in place. */
module PesReassemblerModel {
  import opened Bytes
  import opened TsPacket
  import opened PesReassembly

  class Reassembler {
    var byPid: map<Pid, Partial>
    var totalBuffered: nat
    const caps: Caps

    ghost function View(): (st: Store)
      reads this
    {
      Store(byPid, totalBuffered)
    }

    ghost predicate Valid()
      reads this
    {
      Accounted(caps, View())
    }

    constructor (caps: Caps)
      ensures Valid() && View() == Store(map[], 0) && this.caps == caps
    {
      byPid, totalBuffered := map[], 0;
      this.caps := caps;
      HeldEmpty(0x2000);
    }

    /** Opens a packet, closing the one in flight on the PID. */
    method Open(pid: Pid, randomAccess: bool) returns (outs: seq<Outcome>)
      requires Valid()
      modifies this
      ensures Valid() && (View(), outs) == Opened(old(View()), pid, randomAccess)
    {
      OpenedAccounted(caps, View(), pid, randomAccess);
      outs := [];
      if pid in byPid {
        var prev := byPid[pid];
        totalBuffered := SaturatingSub(totalBuffered, |prev.buf|);
        outs := Finished(pid, prev);
      }
      byPid := byPid[pid := FreshPartial(randomAccess)];
    }

    /** The aggregate cap and completion by length. */
    method Settle(pid: Pid) returns (outs: seq<Outcome>)
      requires pid in byPid
      modifies this
      ensures (View(), outs) == SettledIn(caps, old(View()), pid)
    {
      if totalBuffered > caps.total {
        byPid, totalBuffered := map[], 0;
        return [OverflowTotal];
      }
      var part := byPid[pid];
      if part.total.Some? && |part.buf| >= part.total.value {
        totalBuffered := SaturatingSub(totalBuffered, |part.buf|);
        byPid := byPid - {pid};
        return Finished(pid, part.(buf := part.buf[..part.total.value]));
      }
      outs := [];
    }

    /** Drops the packet in flight. */
    method Drop(pid: Pid, held: nat)
      modifies this
      ensures byPid == old(byPid) - {pid} && totalBuffered == SaturatingSub(old(totalBuffered), held)
    {
      totalBuffered := SaturatingSub(totalBuffered, held);
      byPid := byPid - {pid};
    }

    /** Appends a payload to the packet in flight, if any. */
    method Add(pid: Pid, payload: seq<byte>, video: bool) returns (outs: seq<Outcome>)
      requires Valid()
      modifies this
      ensures Valid() && (View(), outs) == Added(caps, old(View()), pid, payload, video)
    {
      AddedAccounted(caps, View(), pid, payload, video);
      if pid !in byPid {
        return [];
      }
      var part := byPid[pid];
      if |part.buf| + |payload| > caps.perPid {
        Drop(pid, |part.buf|);
        return [Overflow(pid)];
      }
      part := part.(buf := part.buf + payload);
      totalBuffered := totalBuffered + |payload|;
      if part.total.None? && |part.buf| >= 6 {
        var length := (part.buf[4] as int) * 256 + part.buf[5];
        if length != 0 {
          part := part.(total := Some(6 + length));
        } else if !video {
          Drop(pid, |part.buf|);
          return [ZeroLengthNonVideo(pid, part.buf[3])];
        }
      }
      byPid := byPid[pid := part];
      outs := Settle(pid);
    }

    method Push(pid: Pid, payload: seq<byte>, start: bool, randomAccess: bool, video: bool)
      returns (outs: seq<Outcome>)
      requires Valid()
      modifies this
      ensures Valid() && (View(), outs) == Pushed(caps, old(View()), pid, payload, start, randomAccess, video)
    {
      outs := [];
      if start {
        outs := Open(pid, randomAccess);
      }
      var more := Add(pid, payload, video);
      outs := outs + more;
    }

    method MarkDamaged(pid: Pid)
      requires Valid()
      modifies this
      ensures Valid() && View() == MarkedDamaged(old(View()), pid)
    {
      MarkAccounted(caps, View(), pid);
      if pid in byPid && byPid[pid].damage.None? {
        byPid := byPid[pid := byPid[pid].(damage := Some(CcGap))];
      } else if pid in byPid {
        assert byPid == byPid[pid := byPid[pid]];
      }
    }

    /** End of stream: every partial packet is closed, in PID order. */
    method DrainPartial() returns (outs: seq<Outcome>)
      requires Valid()
      modifies this
      ensures Valid() && View() == Store(map[], 0) && outs == Drained(old(byPid), 0x2000)
    {
      outs := [];
      for pid := 0 to 0x2000
        invariant byPid == old(byPid) && outs == Drained(byPid, pid)
      {
        if pid in byPid {
          outs := outs + Finished(pid, byPid[pid]);
        }
      }
      byPid, totalBuffered := map[], 0;
      HeldEmpty(0x2000);
    }
  }
}
