/** The demuxer's packet path (`process_packet`, `check_continuity`) from 188 bytes to PES
    outcomes, over a fixed set of declared elementary streams. */
module TsDemux {
  import opened Bytes
  import opened TsPacket
  import opened PesReassembly

  const NULL_PID := 0x1FFF

  // ---- continuity ----------------------------------------------------------------------

  /** The last payload packet of a PID: its counter, its bytes, and whether its one permitted
      repeat has been seen. */
  datatype Continuity = Continuity(cc: Option<Counter>, repeated: bool, raw: Option<seq<byte>>)

  const UNSEEN := Continuity(None, false, None)

  /** What becomes of a packet: routed, routed across a gap, or dropped as a repeat. */
  datatype Verdict = InSequence | Jumped | Repeat

  predicate CarriesPcr(s: seq<byte>)
    requires |s| == PACKET
  {
    s[3] / 32 % 2 == 1 && s[4] >= 7 && s[5] / 16 % 2 == 1
  }

  /** `pcr_masked_identical`: equal bytes, or equal but for the PCR both carry. */
  predicate SameButPcr(a: seq<byte>, b: seq<byte>)
  {
    a == b || (|a| == PACKET && |b| == PACKET && CarriesPcr(a) && CarriesPcr(b) && a[..6] == b[..6] && a[12..] == b[12..])
  }

  predicate IsRepeat(c: Continuity, pkt: Parsed, raw: seq<byte>)
  {
    c.cc == Some(pkt.cc) && c.raw.Some? && SameButPcr(c.raw.value, raw)
  }

  /** `check_continuity` */
  function Checked(c: Continuity, pkt: Parsed, raw: seq<byte>): (r: (Continuity, Verdict))
  {
    if pkt.pid == NULL_PID then (c, InSequence)
    else if !pkt.hasPayload then (if pkt.discontinuity then UNSEEN else c, InSequence)
    else if IsRepeat(c, pkt, raw) then (if c.repeated then (c, Jumped) else (c.(repeated := true), Repeat))
    else
      (Continuity(Some(pkt.cc), false, Some(raw)),
       if c.cc.Some? && pkt.cc != (c.cc.value + 1) % 16 && !pkt.discontinuity then Jumped else InSequence)
  }

  // ---- the packet path -----------------------------------------------------------------

  datatype Demux = Demux(seen: map<Pid, Continuity>, store: Store)

  const IDLE := Demux(map[], Store(map[], 0))

  /** The declared elementary streams, and which of them are video. */
  type Streams = map<Pid, bool>

  function SeenOn(d: Demux, pid: Pid): (c: Continuity)
  {
    if pid in d.seen then d.seen[pid] else UNSEEN
  }

  /** A packet the demuxer drops unread. */
  predicate Dropped(r: Result<Parsed>)
  {
    r.Err? || r.value.errorFlag || r.value.scrambling != 0
  }

  /** `process_packet`, PSI apart: the PIDs of tables are not among the streams. */
  function Processed(caps: Caps, streams: Streams, d: Demux, raw: seq<byte>): (r: (Demux, seq<Outcome>))
  {
    var parsed := Parse(raw);
    if Dropped(parsed) then (d, [])
    else
      var pkt := parsed.value;
      var (c, verdict) := Checked(SeenOn(d, pkt.pid), pkt, raw);
      var seen := d.seen[pkt.pid := c];
      if verdict == Repeat || !pkt.hasPayload || pkt.pid !in streams then (Demux(seen, d.store), [])
      else
        var (store, outs) := Routed(caps, d.store, verdict, pkt, streams[pkt.pid]);
        (Demux(seen, store), outs)
  }

  /** A gap marks the packet in flight as damaged before the payload is pushed. */
  function Routed(caps: Caps, st: Store, verdict: Verdict, pkt: Parsed, video: bool): (r: (Store, seq<Outcome>))
  {
    var st1 := if verdict == Jumped then MarkedDamaged(st, pkt.pid) else st;
    Pushed(caps, st1, pkt.pid, pkt.payload, pkt.start, pkt.randomAccess, video)
  }

  function Ran(caps: Caps, streams: Streams, d: Demux, ts: seq<seq<byte>>): (r: (Demux, seq<Outcome>))
    decreases |ts|
  {
    if ts == [] then (d, [])
    else
      var (d1, outs1) := Processed(caps, streams, d, ts[0]);
      var (d2, outs2) := Ran(caps, streams, d1, ts[1..]);
      (d2, outs1 + outs2)
  }

  // ---- one PID at a time -----------------------------------------------------------------

  /** All the demuxer knows about one PID. */
  datatype View = View(seen: Continuity, part: Option<Partial>)

  function ViewOf(d: Demux, pid: Pid): (v: View)
  {
    View(SeenOn(d, pid), PartOf(d.store, pid))
  }

  function PartOf(st: Store, pid: Pid): (r: Option<Partial>)
  {
    if pid in st.byPid then Some(st.byPid[pid]) else None
  }

  function PartOpened(part: Option<Partial>, pid: Pid, start: bool, randomAccess: bool)
    : (r: (Option<Partial>, seq<Outcome>))
  {
    if !start then (part, [])
    else (Some(FreshPartial(randomAccess)), if part.Some? then Finished(pid, part.value) else [])
  }

  function PartAdded(cap: nat, part: Option<Partial>, pid: Pid, payload: seq<byte>, video: bool)
    : (r: (Option<Partial>, seq<Outcome>))
  {
    if part.None? then (None, [])
    else
      match Appended(cap, pid, part.value, payload, video)
      case Closed(outs) => (None, outs)
      case Kept(more) =>
        match Settled(pid, more)
        case Closed(outs) => (None, outs)
        case Kept(_) => (Some(more), [])
  }

  function PartPushed(cap: nat, part: Option<Partial>, pkt: Parsed, video: bool): (r: (Option<Partial>, seq<Outcome>))
  {
    var (part1, outs1) := PartOpened(part, pkt.pid, pkt.start, pkt.randomAccess);
    var (part2, outs2) := PartAdded(cap, part1, pkt.pid, pkt.payload, video);
    (part2, outs1 + outs2)
  }

  function PartMarked(part: Option<Partial>, verdict: Verdict): (r: Option<Partial>)
  {
    if part.Some? && verdict == Jumped then Some(Marked(part.value)) else part
  }

  function PartRouted(cap: nat, part: Option<Partial>, verdict: Verdict, pkt: Parsed, video: bool)
    : (r: (Option<Partial>, seq<Outcome>))
  {
    PartPushed(cap, PartMarked(part, verdict), pkt, video)
  }

  /** The packet path as one PID sees it, the aggregate cap apart. */
  function PidProcessed(cap: nat, video: bool, v: View, raw: seq<byte>): (r: (View, seq<Outcome>))
  {
    var parsed := Parse(raw);
    if Dropped(parsed) then (v, [])
    else
      var pkt := parsed.value;
      var (c, verdict) := Checked(v.seen, pkt, raw);
      if verdict == Repeat || !pkt.hasPayload then (View(c, v.part), [])
      else
        var (part, outs) := PartRouted(cap, v.part, verdict, pkt, video);
        (View(c, part), outs)
  }

  function PidRan(cap: nat, video: bool, v: View, ts: seq<seq<byte>>): (r: (View, seq<Outcome>))
    decreases |ts|
  {
    if ts == [] then (v, [])
    else
      var (v1, outs1) := PidProcessed(cap, video, v, ts[0]);
      var (v2, outs2) := PidRan(cap, video, v1, ts[1..]);
      (v2, outs1 + outs2)
  }

  /** A packet that can change anything on a PID: on it, not dropped unread, and with a payload
      or the discontinuity flag. A heartbeat is none. */
  predicate IsLive(pid: Pid, raw: seq<byte>)
  {
    var parsed := Parse(raw);
    !Dropped(parsed) && parsed.value.pid == pid && (parsed.value.hasPayload || parsed.value.discontinuity)
  }

  function LiveOn(pid: Pid, ts: seq<seq<byte>>): (r: seq<seq<byte>>)
  {
    if ts == [] then [] else LiveOn1(pid, ts[0]) + LiveOn(pid, ts[1..])
  }

  function LiveOn1(pid: Pid, raw: seq<byte>): (r: seq<seq<byte>>)
  {
    if IsLive(pid, raw) then [raw] else []
  }

  /** Which PID an outcome is about; an aggregate overflow is about all of them. */
  predicate About(o: Outcome, pid: Pid)
  {
    match o
    case Complete(pes) => pes.pid == pid
    case Overflow(p) => p == pid
    case OverflowTotal => true
    case ZeroLengthNonVideo(p, _) => p == pid
    case Malformed(p, _) => p == pid
  }

  predicate AllAbout(outs: seq<Outcome>, pid: Pid)
  {
    forall k | 0 <= k < |outs| :: About(outs[k], pid) && outs[k] != OverflowTotal
  }

  function OutcomesOn(pid: Pid, outs: seq<Outcome>): (r: seq<Outcome>)
  {
    if outs == [] then [] else Kept1(pid, outs[0]) + OutcomesOn(pid, outs[1..])
  }

  function Kept1(pid: Pid, o: Outcome): (r: seq<Outcome>)
  {
    if About(o, pid) then [o] else []
  }

  /** The aggregate cap was never hit. */
  predicate NoTotal(outs: seq<Outcome>)
  {
    OverflowTotal !in outs
  }

  // ---- locality --------------------------------------------------------------------------

  lemma FinishedAbout(pid: Pid, part: Partial)
    ensures AllAbout(Finished(pid, part), pid)
  {
  }

  lemma AllAboutConcat(a: seq<Outcome>, b: seq<Outcome>, pid: Pid)
    requires AllAbout(a, pid) && AllAbout(b, pid)
    ensures AllAbout(a + b, pid)
  {
  }

  lemma PartAddedAbout(cap: nat, part: Option<Partial>, pid: Pid, payload: seq<byte>, video: bool)
    ensures AllAbout(PartAdded(cap, part, pid, payload, video).1, pid)
  {
    if part.Some? {
      match Appended(cap, pid, part.value, payload, video)
      case Closed(_) =>
      case Kept(more) =>
        if more.total.Some? && |more.buf| >= more.total.value {
          FinishedAbout(pid, more.(buf := more.buf[..more.total.value]));
        }
    }
  }

  lemma PartPushedAbout(cap: nat, part: Option<Partial>, pkt: Parsed, video: bool)
    ensures AllAbout(PartPushed(cap, part, pkt, video).1, pkt.pid)
  {
    var (part1, outs1) := PartOpened(part, pkt.pid, pkt.start, pkt.randomAccess);
    if part.Some? {
      FinishedAbout(pkt.pid, part.value);
    }
    PartAddedAbout(cap, part1, pkt.pid, pkt.payload, video);
    AllAboutConcat(outs1, PartAdded(cap, part1, pkt.pid, pkt.payload, video).1, pkt.pid);
  }

  /** A push changes its own PID as the per-PID path says and no other, unless the aggregate
      cap is hit. */
  lemma AddedLocal(caps: Caps, st: Store, pid: Pid, payload: seq<byte>, video: bool, q: Pid)
    requires NoTotal(Added(caps, st, pid, payload, video).1)
    ensures var (st', outs) := Added(caps, st, pid, payload, video);
            var (part, outs') := PartAdded(caps.perPid, PartOf(st, pid), pid, payload, video);
            outs == outs' && PartOf(st', q) == if q == pid then part else PartOf(st, q)
  {
    if pid in st.byPid {
      match Appended(caps.perPid, pid, st.byPid[pid], payload, video)
      case Closed(_) =>
      case Kept(part) =>
        var st1 := Store(st.byPid[pid := part], st.buffered + |payload|);
        assert SettledIn(caps, st1, pid) == Added(caps, st, pid, payload, video);
        assert st1.byPid[pid] == part;
    }
  }

  lemma PushedLocal(caps: Caps, st: Store, pkt: Parsed, video: bool, q: Pid)
    requires NoTotal(Pushed(caps, st, pkt.pid, pkt.payload, pkt.start, pkt.randomAccess, video).1)
    ensures var (st', outs) := Pushed(caps, st, pkt.pid, pkt.payload, pkt.start, pkt.randomAccess, video);
            var (part, outs') := PartPushed(caps.perPid, PartOf(st, pkt.pid), pkt, video);
            outs == outs' && PartOf(st', q) == if q == pkt.pid then part else PartOf(st, q)
  {
    var (st1, outs1) := if pkt.start then Opened(st, pkt.pid, pkt.randomAccess) else (st, []);
    var (st2, outs2) := Added(caps, st1, pkt.pid, pkt.payload, video);
    NoTotalSplit(outs1, outs2);
    AddedLocal(caps, st1, pkt.pid, pkt.payload, video, q);
  }

  lemma NoTotalSplit(a: seq<Outcome>, b: seq<Outcome>)
    requires NoTotal(a + b)
    ensures NoTotal(a) && NoTotal(b)
  {
    assert forall o | o in a || o in b :: o in a + b;
  }

  lemma RoutedLocal(caps: Caps, st: Store, verdict: Verdict, pkt: Parsed, video: bool, q: Pid)
    requires NoTotal(Routed(caps, st, verdict, pkt, video).1)
    ensures var (st', outs) := Routed(caps, st, verdict, pkt, video);
            var (part, outs') := PartRouted(caps.perPid, PartOf(st, pkt.pid), verdict, pkt, video);
            && outs == outs' && AllAbout(outs, pkt.pid)
            && PartOf(st', q) == if q == pkt.pid then part else PartOf(st, q)
  {
    var st1 := if verdict == Jumped then MarkedDamaged(st, pkt.pid) else st;
    assert PartOf(st1, pkt.pid) == PartMarked(PartOf(st, pkt.pid), verdict);
    assert q != pkt.pid ==> PartOf(st1, q) == PartOf(st, q);
    PushedLocal(caps, st1, pkt, video, q);
    PartPushedAbout(caps.perPid, PartOf(st1, pkt.pid), pkt, video);
  }

  lemma {:induction false} NoneOn(pid: Pid, q: Pid, outs: seq<Outcome>)
    requires pid != q && AllAbout(outs, q)
    ensures OutcomesOn(pid, outs) == []
  {
    if outs != [] {
      assert About(outs[0], q);
      NoneOn(pid, q, outs[1..]);
    }
  }

  lemma {:induction false} AllOn(pid: Pid, outs: seq<Outcome>)
    requires AllAbout(outs, pid)
    ensures OutcomesOn(pid, outs) == outs
  {
    if outs != [] {
      assert About(outs[0], pid);
      AllOn(pid, outs[1..]);
    }
  }

  lemma {:induction false} OutcomesOnConcat(pid: Pid, a: seq<Outcome>, b: seq<Outcome>)
    ensures OutcomesOn(pid, a + b) == OutcomesOn(pid, a) + OutcomesOn(pid, b)
  {
    if a == [] {
      assert a + b == b;
    } else {
      OutcomesOnConcat(pid, a[1..], b);
      assert (a + b)[0] == a[0] && (a + b)[1..] == a[1..] + b;
      Regroup(Kept1(pid, a[0]), OutcomesOn(pid, a[1..]), OutcomesOn(pid, b));
    }
  }

  lemma Regroup(x: seq<Outcome>, y: seq<Outcome>, z: seq<Outcome>)
    ensures x + (y + z) == x + y + z
  {
  }

  /** A packet that is not live on the PID changes nothing there. */
  lemma ProcessedElsewhere(caps: Caps, streams: Streams, d: Demux, raw: seq<byte>, pid: Pid)
    requires !IsLive(pid, raw) && NoTotal(Processed(caps, streams, d, raw).1)
    ensures var (d', outs) := Processed(caps, streams, d, raw);
            ViewOf(d', pid) == ViewOf(d, pid) && OutcomesOn(pid, outs) == []
  {
    var parsed := Parse(raw);
    if !Dropped(parsed) {
      var pkt := parsed.value;
      var verdict := Checked(SeenOn(d, pkt.pid), pkt, raw).1;
      if verdict != Repeat && pkt.hasPayload && pkt.pid in streams {
        RoutedLocal(caps, d.store, verdict, pkt, streams[pkt.pid], pid);
        NoneOn(pid, pkt.pid, Routed(caps, d.store, verdict, pkt, streams[pkt.pid]).1);
      }
    }
  }

  /** A live packet does there what the per-PID path says. */
  lemma ProcessedHere(caps: Caps, streams: Streams, d: Demux, raw: seq<byte>, pid: Pid)
    requires IsLive(pid, raw) && pid in streams && NoTotal(Processed(caps, streams, d, raw).1)
    ensures var (d', outs) := Processed(caps, streams, d, raw);
            && (ViewOf(d', pid), outs) == PidProcessed(caps.perPid, streams[pid], ViewOf(d, pid), raw)
            && OutcomesOn(pid, outs) == outs
  {
    var parsed := Parse(raw);
    if !Dropped(parsed) {
      var pkt := parsed.value;
      var verdict := Checked(SeenOn(d, pid), pkt, raw).1;
      if verdict != Repeat && pkt.hasPayload {
        RoutedLocal(caps, d.store, verdict, pkt, streams[pid], pid);
        AllOn(pid, Routed(caps, d.store, verdict, pkt, streams[pid]).1);
      }
    }
  }

  /** Streams do not interfere: over every run that never hits the aggregate cap, a PID's
      state and outcomes are those of its own live packets, whatever bytes the others are. */
  lemma {:induction false} RunLocal(caps: Caps, streams: Streams, d: Demux, ts: seq<seq<byte>>, pid: Pid)
    requires pid in streams && NoTotal(Ran(caps, streams, d, ts).1)
    ensures var (d', outs) := Ran(caps, streams, d, ts);
            (ViewOf(d', pid), OutcomesOn(pid, outs))
            == PidRan(caps.perPid, streams[pid], ViewOf(d, pid), LiveOn(pid, ts))
    decreases |ts|
  {
    if ts != [] {
      var (d1, outs1) := Processed(caps, streams, d, ts[0]);
      var (d2, outs2) := Ran(caps, streams, d1, ts[1..]);
      NoTotalSplit(outs1, outs2);
      OutcomesOnConcat(pid, outs1, outs2);
      RunLocal(caps, streams, d1, ts[1..], pid);
      var rest := LiveOn(pid, ts[1..]);
      if IsLive(pid, ts[0]) {
        ProcessedHere(caps, streams, d, ts[0], pid);
        assert LiveOn(pid, ts) == [ts[0]] + rest;
        PidRanStep(caps.perPid, streams[pid], ViewOf(d, pid), ts[0], rest);
      } else {
        ProcessedElsewhere(caps, streams, d, ts[0], pid);
        assert LiveOn(pid, ts) == rest;
        assert OutcomesOn(pid, outs1) + OutcomesOn(pid, outs2) == OutcomesOn(pid, outs2);
      }
    }
  }

  lemma PidRanStep(cap: nat, video: bool, v: View, raw: seq<byte>, rest: seq<seq<byte>>)
    ensures var (v1, outs1) := PidProcessed(cap, video, v, raw);
            var (v2, outs2) := PidRan(cap, video, v1, rest);
            PidRan(cap, video, v, [raw] + rest) == (v2, outs1 + outs2)
  {
    assert ([raw] + rest)[1..] == rest;
  }
}
