/** The transport theorem: for every run of the muxer, each PID's PES packets come out of the
    demuxer whole, once, in order and unmarked. */
module TsDeliveryLaws {
  import opened Bytes
  import opened TsPacket
  import opened PesPacket
  import opened PesReassembly
  import opened TsDemux
  import opened TsMux
  import opened TsTransport
  import opened TsDelivery

  // ---- whole runs, on PES bytes -----------------------------------------------------------------

  /** Every PES packet sent on the PID declares its length, or none on a video stream. */
  predicate SendsDeclared(pid: Pid, video: bool, ops: seq<Op>)
  {
    forall i | 0 <= i < |ops| :: SendDeclared(pid, video, ops[i])
  }

  predicate SendDeclared(pid: Pid, video: bool, op: Op)
  {
    op.Send? && op.pid == pid ==> Declared(op.whole, video)
  }

  function DeliveredBy(cap: nat, pid: Pid, op: Op): (r: seq<Outcome>)
  {
    if op.Send? && op.pid == pid then Delivered(cap, pid, op.whole, op.af.randomAccess) else []
  }

  function AllDelivered(cap: nat, pid: Pid, ops: seq<Op>): (r: seq<Outcome>)
  {
    if ops == [] then [] else DeliveredBy(cap, pid, ops[0]) + AllDelivered(cap, pid, ops[1..])
  }

  /** What these packets give and leave owed is what was owed before, then `want`. */
  predicate Gives(cap: nat, video: bool, pid: Pid, part: Option<Partial>, xs: seq<Piece>, want: seq<Outcome>)
  {
    var (part', outs) := PiecesRan(cap, video, pid, part, xs);
    outs + Owed(pid, part') == Owed(pid, part) + want
  }

  lemma Chain(a: seq<Outcome>, b: seq<Outcome>, m: seq<Outcome>, o: seq<Outcome>, x: seq<Outcome>, y: seq<Outcome>,
              z: seq<Outcome>)
    requires a + m == o + x && b + z == m + y
    ensures a + b + z == o + (x + y)
  {
    calc {
      a + b + z;
      { Regroup(a, b, z); }
      a + (b + z);
      a + (m + y);
      { Regroup(a, m, y); }
      a + m + y;
      o + x + y;
      { Regroup(o, x, y); }
      o + (x + y);
    }
  }

  lemma GivesConcat(cap: nat, video: bool, pid: Pid, part: Option<Partial>, xs: seq<Piece>, ys: seq<Piece>,
                    a: seq<Outcome>, b: seq<Outcome>)
    requires Gives(cap, video, pid, part, xs, a)
    requires Gives(cap, video, pid, PiecesRan(cap, video, pid, part, xs).0, ys, b)
    ensures Gives(cap, video, pid, part, xs + ys, a + b)
  {
    var (part1, outs1) := PiecesRan(cap, video, pid, part, xs);
    var (part2, outs2) := PiecesRan(cap, video, pid, part1, ys);
    PiecesRanConcat(cap, video, pid, part, xs, ys);
    Chain(outs1, outs2, Owed(pid, part1), Owed(pid, part), a, b, Owed(pid, part2));
  }

  lemma OpGives(cap: nat, video: bool, pid: Pid, part: Option<Partial>, op: Op, cc: Counter)
    requires SendDeclared(pid, video, op)
    ensures Gives(cap, video, pid, part, AddsTo(pid, cc, op), DeliveredBy(cap, pid, op))
  {
    if op.Send? && op.pid == pid {
      WholeRan(cap, video, pid, part, op.af, op.whole, cc);
      EarlyThenOwed(cap, video, pid, op.whole, op.af.randomAccess);
      var w, ra := op.whole, op.af.randomAccess;
      Regroup(Owed(pid, part), Early(cap, pid, w, ra), Owed(pid, Waiting(cap, w, ra)));
    } else {
      NothingAdded(Owed(pid, part));
    }
  }

  lemma TailDeclared(pid: Pid, video: bool, ops: seq<Op>)
    requires ops != [] && SendsDeclared(pid, video, ops)
    ensures SendDeclared(pid, video, ops[0]) && SendsDeclared(pid, video, ops[1..])
  {
  }

  /** What is in flight after one operation. */
  function LeftBy(cap: nat, video: bool, pid: Pid, part: Option<Partial>, op: Op, cc: Counter): (r: Option<Partial>)
  {
    PiecesRan(cap, video, pid, part, AddsTo(pid, cc, op)).0
  }

  lemma GivesStep(cap: nat, video: bool, pid: Pid, part: Option<Partial>, ops: seq<Op>, cc: Counter)
    requires ops != [] && SendDeclared(pid, video, ops[0])
    requires Gives(cap, video, pid, LeftBy(cap, video, pid, part, ops[0], cc),
                   StreamOn(pid, ops[1..], CounterAfter(pid, cc, ops[0])), AllDelivered(cap, pid, ops[1..]))
    ensures Gives(cap, video, pid, part, StreamOn(pid, ops, cc), AllDelivered(cap, pid, ops))
  {
    OpGives(cap, video, pid, part, ops[0], cc);
    GivesConcat(cap, video, pid, part, AddsTo(pid, cc, ops[0]), StreamOn(pid, ops[1..], CounterAfter(pid, cc, ops[0])),
                DeliveredBy(cap, pid, ops[0]), AllDelivered(cap, pid, ops[1..]));
  }

  lemma {:induction false} StreamGives(cap: nat, video: bool, pid: Pid, part: Option<Partial>, ops: seq<Op>,
                                       cc: Counter)
    requires SendsDeclared(pid, video, ops)
    ensures Gives(cap, video, pid, part, StreamOn(pid, ops, cc), AllDelivered(cap, pid, ops))
    decreases |ops|
  {
    if ops == [] {
      NothingAdded(Owed(pid, part));
    } else {
      TailDeclared(pid, video, ops);
      StreamGives(cap, video, pid, LeftBy(cap, video, pid, part, ops[0], cc), ops[1..], CounterAfter(pid, cc, ops[0]));
      GivesStep(cap, video, pid, part, ops, cc);
    }
  }

  // ---- the final flush ------------------------------------------------------------------------

  lemma DrainedStep(byPid: map<Pid, Partial>, n: nat)
    requires 0 < n <= 0x2000
    ensures Drained(byPid, n) == Drained(byPid, n - 1) + DrainedAt(byPid, n - 1)
  {
  }

  lemma {:induction false} DrainedOn(pid: Pid, byPid: map<Pid, Partial>, n: nat)
    requires n <= 0x2000
    ensures OutcomesOn(pid, Drained(byPid, n)) == if pid < n then DrainedAt(byPid, pid) else []
  {
    hide *;
    if n == 0 {
      NothingDrained(pid, byPid);
    } else {
      DrainedOn(pid, byPid, n - 1);
      DrainedStep(byPid, n);
      OutcomesOnConcat(pid, Drained(byPid, n - 1), DrainedAt(byPid, n - 1));
      DrainedAtOn(pid, n - 1, byPid);
      NothingAdded(DrainedAt(byPid, pid));
    }
  }

  lemma NothingDrained(pid: Pid, byPid: map<Pid, Partial>)
    ensures OutcomesOn(pid, Drained(byPid, 0)) == []
  {
  }

  lemma DrainedAtOn(pid: Pid, q: Pid, byPid: map<Pid, Partial>)
    ensures OutcomesOn(pid, DrainedAt(byPid, q)) == if q == pid then DrainedAt(byPid, q) else []
  {
    if q in byPid {
      FinishedAbout(q, byPid[q]);
    }
    if q == pid {
      AllOn(pid, DrainedAt(byPid, q));
    } else {
      NoneOn(pid, q, DrainedAt(byPid, q));
    }
  }

  /** A run, then a flush. */
  function RanAndFlushed(caps: Caps, streams: Streams, ts: seq<seq<byte>>): (r: seq<Outcome>)
  {
    var (d, outs) := Ran(caps, streams, IDLE, ts);
    outs + Drained(d.store.byPid, 0x2000)
  }

  lemma FlushedOn(caps: Caps, streams: Streams, ts: seq<seq<byte>>, pid: Pid)
    ensures var (d, outs) := Ran(caps, streams, IDLE, ts);
            OutcomesOn(pid, RanAndFlushed(caps, streams, ts)) == OutcomesOn(pid, outs) + Owed(pid, ViewOf(d, pid).part)
  {
    var (d, outs) := Ran(caps, streams, IDLE, ts);
    OutcomesOnConcat(pid, outs, Drained(d.store.byPid, 0x2000));
    DrainedOn(pid, d.store.byPid, 0x2000);
  }

  /** For every run of the muxer, whatever else it carries, everything the demuxer reports on a
      PID is what was sent there: each PES packet whole and once, in order, with no damage,
      gap or repeat seen; one above the per-PID cap is one overflow instead. */
  lemma TransportDelivers(caps: Caps, streams: Streams, pid: Pid, c: Counters, ops: seq<Op>)
    requires pid in streams && pid != NULL_PID && SendsDeclared(pid, streams[pid], ops)
    requires NoTotal(Ran(caps, streams, IDLE, Muxed(c, ops)).1)
    ensures OutcomesOn(pid, RanAndFlushed(caps, streams, Muxed(c, ops))) == AllDelivered(caps.perPid, pid, ops)
  {
    var ts, xs := Muxed(c, ops), StreamOn(pid, ops, c[pid]);
    RunLocal(caps, streams, IDLE, ts, pid);
    MuxedOn(pid, c, ops);
    StreamChained(pid, ops, c[pid]);
    ChainedInStep(xs);
    InStepRan(caps.perPid, streams[pid], pid, ViewOf(IDLE, pid), xs);
    StreamGives(caps.perPid, streams[pid], pid, None, ops, c[pid]);
    FlushedOn(caps, streams, ts, pid);
    NothingAdded(AllDelivered(caps.perPid, pid, ops));
  }

  // ---- the aggregate cap ------------------------------------------------------------------------

  function KeysBelow(s: set<Pid>, n: nat): (r: set<Pid>)
  {
    set p | p in s && p < n
  }

  lemma {:induction false} HeldBound(caps: Caps, byPid: map<Pid, Partial>, n: nat)
    requires n <= 0x2000 && forall p | p in byPid :: |byPid[p].buf| <= caps.perPid
    ensures HeldBelow(byPid, n) <= |KeysBelow(byPid.Keys, n)| * caps.perPid
  {
    if n > 0 {
      HeldBound(caps, byPid, n - 1);
      var below, here := KeysBelow(byPid.Keys, n - 1), KeysBelow(byPid.Keys, n);
      var q: Pid := n - 1;
      if q in byPid {
        assert here == below + {q};
        Distributes(|below|, caps.perPid);
      } else {
        assert here == below;
      }
    }
  }

  lemma Distributes(a: nat, b: nat)
    ensures (a + 1) * b == a * b + b
  {
  }

  lemma Scales(a: nat, b: nat, c: nat)
    requires a <= b
    ensures a * c <= b * c
  {
  }

  lemma {:induction false} Fewer(a: set<Pid>, b: set<Pid>)
    requires a <= b
    ensures |a| <= |b|
  {
    if a != {} {
      var x :| x in a;
      Fewer(a - {x}, b - {x});
    }
  }

  /** Only declared streams hold bytes. */
  predicate Confined(streams: Streams, st: Store)
  {
    st.byPid.Keys <= streams.Keys
  }

  /** The total cap leaves room for every stream at its own cap. */
  predicate Roomy(caps: Caps, streams: Streams)
  {
    |streams.Keys| * caps.perPid <= caps.total
  }

  lemma RoomForAll(caps: Caps, streams: Streams, st: Store)
    requires Counted(caps, st) && Confined(streams, st) && Roomy(caps, streams)
    ensures st.buffered <= caps.total
  {
    HeldBound(caps, st.byPid, 0x2000);
    var here := KeysBelow(st.byPid.Keys, 0x2000);
    Fewer(here, streams.Keys);
    Scales(|here|, |streams.Keys|, caps.perPid);
  }

  lemma AddedRoomy(caps: Caps, streams: Streams, st: Store, pid: Pid, payload: seq<byte>, video: bool)
    requires Accounted(caps, st) && Confined(streams, st) && Roomy(caps, streams) && pid in streams
    ensures var (st', outs) := Added(caps, st, pid, payload, video); Confined(streams, st') && NoTotal(outs)
  {
    if pid in st.byPid {
      match Appended(caps.perPid, pid, st.byPid[pid], payload, video)
      case Closed(_) =>
      case Kept(part) =>
        var st1 := Store(st.byPid[pid := part], st.buffered + |payload|);
        GrownCounted(caps, st, pid, part, |payload|);
        RoomForAll(caps, streams, st1);
        SettledRoomy(caps, streams, st1, pid);
    }
  }

  lemma SettledRoomy(caps: Caps, streams: Streams, st: Store, pid: Pid)
    requires pid in st.byPid && Confined(streams, st) && st.buffered <= caps.total
    ensures var (st', outs) := SettledIn(caps, st, pid); Confined(streams, st') && NoTotal(outs)
  {
    var part := st.byPid[pid];
    if part.total.Some? && |part.buf| >= part.total.value {
      FinishedAbout(pid, part.(buf := part.buf[..part.total.value]));
    }
  }

  lemma RoutedRoomy(caps: Caps, streams: Streams, st: Store, verdict: Verdict, pkt: Parsed)
    requires Accounted(caps, st) && Confined(streams, st) && Roomy(caps, streams) && pkt.pid in streams
    ensures var (st', outs) := Routed(caps, st, verdict, pkt, streams[pkt.pid]);
            Accounted(caps, st') && Confined(streams, st') && NoTotal(outs)
  {
    var st1 := if verdict == Jumped then MarkedDamaged(st, pkt.pid) else st;
    MarkAccounted(caps, st, pkt.pid);
    PushAccounted(caps, st1, pkt.pid, pkt.payload, pkt.start, pkt.randomAccess, streams[pkt.pid]);
    OpenedAccounted(caps, st1, pkt.pid, pkt.randomAccess);
    var (st2, outs2) := if pkt.start then Opened(st1, pkt.pid, pkt.randomAccess) else (st1, []);
    if pkt.pid in st1.byPid {
      FinishedAbout(pkt.pid, st1.byPid[pkt.pid]);
    }
    AddedRoomy(caps, streams, st2, pkt.pid, pkt.payload, streams[pkt.pid]);
  }

  /** A demuxer whose total cap has room for every declared stream never hits it, whatever
      bytes arrive. */
  lemma {:induction false} NeverTotal(caps: Caps, streams: Streams, d: Demux, ts: seq<seq<byte>>)
    requires Accounted(caps, d.store) && Confined(streams, d.store) && Roomy(caps, streams)
    ensures NoTotal(Ran(caps, streams, d, ts).1)
    decreases |ts|
  {
    if ts != [] {
      var (d1, outs1) := Processed(caps, streams, d, ts[0]);
      var parsed := Parse(ts[0]);
      if !Dropped(parsed) && parsed.value.pid in streams {
        var verdict := Checked(SeenOn(d, parsed.value.pid), parsed.value, ts[0]).1;
        RoutedRoomy(caps, streams, d.store, verdict, parsed.value);
      }
      NeverTotal(caps, streams, d1, ts[1..]);
    }
  }

  // ---- the same for the units the muxer writes ------------------------------------------------------

  datatype Push = Push(pid: Pid, af: Adaptation, u: PesUnit) | Heartbeat(pid: Pid, pcr: u64)

  predicate Sendable(p: Push)
  {
    p.Push? ==> Fits(p.u) && HasOptionalHeader(p.u.streamId)
  }

  predicate AllSendable(ps: seq<Push>)
  {
    forall i | 0 <= i < |ps| :: Sendable(ps[i])
  }

  function Lowered(p: Push): (op: Op)
    requires Sendable(p)
  {
    match p
    case Push(pid, af, u) => Send(pid, af, PesBytes(u))
    case Heartbeat(pid, pcr) => Beat(pid, pcr)
  }

  function AllLowered(ps: seq<Push>): (ops: seq<Op>)
    requires AllSendable(ps)
  {
    if ps == [] then [] else [Lowered(ps[0])] + AllLowered(ps[1..])
  }

  /** The stamps, flags and payload of every unit pushed on the PID, in order; one overflow for
      a unit that exceeds the per-PID cap. */
  function Wanted(cap: nat, pid: Pid, ps: seq<Push>): (r: seq<Outcome>)
  {
    if ps == [] then []
    else
      (if ps[0].Push? && ps[0].pid == pid then
         [if 9 + StampSize(ps[0].u.stamps) + |ps[0].u.payload| > cap then Overflow(pid)
          else Complete(Received(pid, ps[0].u, ps[0].af.randomAccess))]
       else [])
      + Wanted(cap, pid, ps[1..])
  }

  lemma UnitDelivered(cap: nat, pid: Pid, u: PesUnit, randomAccess: bool)
    requires Fits(u) && HasOptionalHeader(u.streamId)
    ensures Delivered(cap, pid, PesBytes(u), randomAccess)
         == [if |PesBytes(u)| > cap then Overflow(pid) else Complete(Received(pid, u, randomAccess))]
  {
    PesRoundTrip(pid, u, randomAccess);
  }

  /** Units on the PID declare their length, or it is a video stream. */
  predicate Bounded(pid: Pid, video: bool, p: Push)
  {
    p.Push? && p.pid == pid ==> p.u.bounded || video
  }

  lemma LoweredDeclared(pid: Pid, video: bool, p: Push)
    requires Sendable(p) && Bounded(pid, video, p)
    ensures SendDeclared(pid, video, Lowered(p))
  {
    if p.Push? && p.pid == pid {
      UnitDeclared(p.u, video);
    }
  }

  lemma {:induction false} LoweredWanted(cap: nat, video: bool, pid: Pid, ps: seq<Push>)
    requires AllSendable(ps) && forall i | 0 <= i < |ps| :: Bounded(pid, video, ps[i])
    ensures SendsDeclared(pid, video, AllLowered(ps))
    ensures AllDelivered(cap, pid, AllLowered(ps)) == Wanted(cap, pid, ps)
    decreases |ps|
  {
    if ps != [] {
      LoweredDeclared(pid, video, ps[0]);
      LoweredWanted(cap, video, pid, ps[1..]);
      DeliveredCons(cap, pid, Lowered(ps[0]), AllLowered(ps[1..]));
      if ps[0].Push? && ps[0].pid == pid {
        UnitDelivered(cap, pid, ps[0].u, ps[0].af.randomAccess);
      }
    }
  }

  lemma DeliveredCons(cap: nat, pid: Pid, op: Op, ops: seq<Op>)
    ensures AllDelivered(cap, pid, [op] + ops) == DeliveredBy(cap, pid, op) + AllDelivered(cap, pid, ops)
  {
    assert ([op] + ops)[1..] == ops;
  }

  /** End to end: every unit pushed into the muxer on a declared PID comes out of the demuxer,
      in order and unmarked, with its 33-bit stamps, its flags and its payload. */
  lemma UnitsReachDemuxer(caps: Caps, streams: Streams, pid: Pid, c: Counters, ps: seq<Push>)
    requires AllSendable(ps) && pid in streams && pid != NULL_PID && Roomy(caps, streams)
    requires forall i | 0 <= i < |ps| :: Bounded(pid, streams[pid], ps[i])
    ensures OutcomesOn(pid, RanAndFlushed(caps, streams, Muxed(c, AllLowered(ps)))) == Wanted(caps.perPid, pid, ps)
  {
    HeldEmpty(0x2000);
    NeverTotal(caps, streams, IDLE, Muxed(c, AllLowered(ps)));
    LoweredWanted(caps.perPid, streams[pid], pid, ps);
    TransportDelivers(caps, streams, pid, c, AllLowered(ps));
  }
}
