/** From the muxer's packets to the demuxer: what one packet does on its PID, and that a run of
    the muxer reaches each PID as its own stream. */
module TsTransport {
  import opened Bytes
  import opened TsPacket
  import opened TsPacketLaws
  import opened PesPacket
  import opened PesReassembly
  import opened TsDemux
  import opened TsMux

  // ---- packets -------------------------------------------------------------------------

  /** What a piece's packet parses to, as far as the demuxer uses it. */
  predicate Reads(pid: Pid, x: Piece, pkt: Parsed)
  {
    && x.End() <= |x.whole| && pkt.pid == pid && !pkt.errorFlag && pkt.scrambling == 0 && pkt.hasPayload && !pkt.discontinuity
    && pkt.cc == x.cc && pkt.start == x.Start() && pkt.payload == x.whole[x.from..x.End()]
    && (x.Start() ==> pkt.randomAccess == x.randomAccess)
  }

  lemma RawReads(pid: Pid, x: Piece)
    requires x.Valid()
    ensures x.End() <= |x.whole| && Parse(Raw(pid, x)).Ok? && Reads(pid, x, Parse(Raw(pid, x)).value)
  {
    hide Packet;
    hide Parse;
    ParseInvertsPacket(pid, x.Start(), x.af, x.whole[x.from..], x.cc);
    assert x.whole[x.from..][..x.size] == x.whole[x.from..x.End()];
  }

  lemma RawLive(pid: Pid, q: Pid, x: Piece)
    requires x.Valid()
    ensures IsLive(q, Raw(pid, x)) <==> q == pid
  {
    hide Raw;
    hide Parse;
    RawReads(pid, x);
  }

  lemma BeatNotLive(pid: Pid, q: Pid, pcr: u64, cc: Counter)
    ensures !IsLive(q, PcrOnlyPacket(pid, pcr, cc))
  {
    ParseInvertsPcrOnly(pid, pcr, cc);
  }

  lemma {:induction false} LiveConcat(pid: Pid, a: seq<seq<byte>>, b: seq<seq<byte>>)
    ensures LiveOn(pid, a + b) == LiveOn(pid, a) + LiveOn(pid, b)
  {
    if a == [] {
      assert a + b == b;
    } else {
      assert (a + b)[0] == a[0] && (a + b)[1..] == a[1..] + b;
      LiveConcat(pid, a[1..], b);
      var x, y, z := LiveOn1(pid, a[0]), LiveOn(pid, a[1..]), LiveOn(pid, b);
      assert x + (y + z) == x + y + z;
    }
  }

  lemma {:induction false} LiveRaws(pid: Pid, q: Pid, xs: seq<Piece>)
    requires AllValid(xs)
    ensures LiveOn(q, Raws(pid, xs)) == if q == pid then Raws(pid, xs) else []
  {
    if xs != [] {
      var raw, rest := Raw(pid, xs[0]), Raws(pid, xs[1..]);
      RawLive(pid, q, xs[0]);
      LiveRaws(pid, q, xs[1..]);
      assert Raws(pid, xs) == [raw] + rest;
      LiveCons(q, raw, rest);
    }
  }

  lemma LiveCons(q: Pid, raw: seq<byte>, rest: seq<seq<byte>>)
    ensures LiveOn(q, [raw] + rest) == LiveOn1(q, raw) + LiveOn(q, rest)
  {
    assert ([raw] + rest)[1..] == rest;
  }

  lemma EmittedOn(pid: Pid, c: Counters, op: Op)
    ensures LiveOn(pid, Emitted(c, op)) == Raws(pid, AddsTo(pid, c[pid], op))
  {
    match op
    case Send(q, af, whole) =>
      PiecesOfShape(af, whole, c[q]);
      LiveRaws(q, pid, PiecesOf(af, whole, c[q]));
    case Beat(q, pcr) =>
      BeatNotLive(q, pid, pcr, c[q]);
  }

  lemma LiveStep(pid: Pid, a: seq<seq<byte>>, b: seq<seq<byte>>, xs: seq<Piece>, ys: seq<Piece>)
    requires LiveOn(pid, a) == Raws(pid, xs) && LiveOn(pid, b) == Raws(pid, ys)
    ensures LiveOn(pid, a + b) == Raws(pid, xs + ys)
  {
    LiveConcat(pid, a, b);
    MappedConcat(RawOf(pid), xs, ys);
  }

  /** Whatever the other PIDs carry and however heartbeats fall, the live packets of a PID are
      its own stream. */
  lemma {:induction false} MuxedOn(pid: Pid, c: Counters, ops: seq<Op>)
    ensures LiveOn(pid, Muxed(c, ops)) == Raws(pid, StreamOn(pid, ops, c[pid]))
    decreases |ops|
  {
    if ops != [] {
      var c1 := Advanced(c, ops[0]);
      EmittedOn(pid, c, ops[0]);
      MuxedOn(pid, c1, ops[1..]);
      LiveStep(pid, Emitted(c, ops[0]), Muxed(c1, ops[1..]),
               AddsTo(pid, c[pid], ops[0]), StreamOn(pid, ops[1..], c1[pid]));
    }
  }

  // ---- one packet on its PID -------------------------------------------------------------

  function SeenBy(pid: Pid, x: Piece): (c: Continuity)
    requires x.Valid()
  {
    Continuity(Some(x.cc), false, Some(Raw(pid, x)))
  }

  /** The PID expects counter `cc` next, or has seen nothing. */
  predicate Expects(c: Continuity, cc: Counter)
  {
    c == UNSEEN || (c.cc.Some? && Next(c.cc.value) == cc)
  }

  lemma InOrder(pid: Pid, c: Continuity, x: Piece)
    requires x.Valid() && pid != NULL_PID && Expects(c, x.cc)
    ensures Checked(c, Parse(Raw(pid, x)).value, Raw(pid, x)) == (SeenBy(pid, x), InSequence)
    ensures Expects(SeenBy(pid, x), Next(x.cc))
  {
    hide Raw;
    hide Parse;
    hide SameButPcr;
    RawReads(pid, x);
  }

  /** The piece's share of its PES packet. */
  function Payload(x: Piece): (s: seq<byte>)
  {
    if x.End() <= |x.whole| then x.whole[x.from..x.End()] else []
  }

  /** What the packet does to the PES packet in flight. */
  function PieceRouted(cap: nat, video: bool, pid: Pid, part: Option<Partial>, verdict: Verdict, x: Piece)
    : (r: (Option<Partial>, seq<Outcome>))
  {
    var (part1, outs1) := PartOpened(PartMarked(part, verdict), pid, x.Start(), x.randomAccess);
    var (part2, outs2) := PartAdded(cap, part1, pid, Payload(x), video);
    (part2, outs1 + outs2)
  }

  lemma PieceProcessed(cap: nat, video: bool, pid: Pid, v: View, x: Piece)
    requires x.Valid() && pid != NULL_PID
    ensures x.End() <= |x.whole|
    ensures var (c, verdict) := Checked(v.seen, Parse(Raw(pid, x)).value, Raw(pid, x));
            verdict != Repeat ==>
              var (part, outs) := PieceRouted(cap, video, pid, v.part, verdict, x);
              PidProcessed(cap, video, v, Raw(pid, x)) == (View(c, part), outs)
  {
    hide Raw;
    hide Parse;
    hide Checked;
    RawReads(pid, x);
  }

  // ---- the length field --------------------------------------------------------------------

  function LengthField(w: seq<byte>): (n: nat)
    requires |w| >= 6
  {
    (w[4] as int) * 256 + w[5]
  }

  function TotalOf(w: seq<byte>): (r: Option<nat>)
    requires |w| >= 6
  {
    if LengthField(w) == 0 then None else Some(6 + LengthField(w))
  }

  /** Declares its own length, or none on a video stream. */
  predicate Declared(w: seq<byte>, video: bool)
  {
    |w| >= 6 && if LengthField(w) == 0 then video else 6 + LengthField(w) == |w|
  }

  lemma UnitDeclared(u: PesUnit, video: bool)
    requires Fits(u) && (u.bounded || video)
    ensures Declared(PesBytes(u), video)
  {
    PesFront(u);
  }

  /** The bytes of `w` before `n`, intact so far. */
  function Intact(w: seq<byte>, n: nat, randomAccess: bool): (p: Partial)
    requires 6 <= n <= |w|
  {
    Partial(TotalOf(w), w[..n], randomAccess, None)
  }

  /** A whole PES packet handed over, unmarked. */
  function Clean(pid: Pid, w: seq<byte>, randomAccess: bool): (r: seq<Outcome>)
  {
    match ParsePes(pid, w, randomAccess)
    case TooShort => []
    case Bad(fault) => [Malformed(pid, Unparseable(fault))]
    case Got(pes) => [Complete(pes)]
  }

  lemma FinishedIntact(pid: Pid, w: seq<byte>, randomAccess: bool, video: bool)
    requires Declared(w, video)
    ensures Finished(pid, Intact(w, |w|, randomAccess)) == Clean(pid, w, randomAccess)
  {
    assert w[..|w|] == w;
  }

  /** What becomes of the packet in flight when its bytes up to `x.from`, all intact, are
      followed by the piece `x`. */
  function Grown(cap: nat, pid: Pid, x: Piece): (r: (Option<Partial>, seq<Outcome>))
    requires 6 <= x.End() <= |x.whole|
  {
    if x.End() > cap then (None, [Overflow(pid)])
    else if TotalOf(x.whole).Some? && x.End() == |x.whole| then (None, Clean(pid, x.whole, x.randomAccess))
    else (Some(Intact(x.whole, x.End(), x.randomAccess)), [])
  }

  /** The packet in flight just before `x`. */
  function Before(x: Piece): (p: Partial)
    requires x.from == 0 || 6 <= x.from <= |x.whole|
  {
    if x.from == 0 then FreshPartial(x.randomAccess) else Intact(x.whole, x.from, x.randomAccess)
  }

  lemma AppendedIntact(cap: nat, video: bool, pid: Pid, x: Piece)
    requires Declared(x.whole, video) && x.from < x.End() <= |x.whole| && x.End() >= 6
    requires x.from == 0 || x.from >= 6
    ensures Appended(cap, pid, Before(x), x.whole[x.from..x.End()], video)
         == if x.End() > cap then Closed([Overflow(pid)]) else Kept(Intact(x.whole, x.End(), x.randomAccess))
  {
    var w := x.whole;
    assert w[..x.from] + w[x.from..x.End()] == w[..x.End()];
    assert [] + w[0..x.End()] == w[..x.End()];
    assert w[..x.End()][4] == w[4] && w[..x.End()][5] == w[5];
  }

  lemma SettledIntact(video: bool, pid: Pid, w: seq<byte>, n: nat, randomAccess: bool)
    requires Declared(w, video) && 6 <= n <= |w|
    ensures Settled(pid, Intact(w, n, randomAccess))
         == if TotalOf(w).Some? && n == |w| then Closed(Clean(pid, w, randomAccess)) else Kept(Intact(w, n, randomAccess))
  {
    if n == |w| {
      FinishedIntact(pid, w, randomAccess, video);
      assert w[..n][..n] == w[..n];
    }
  }

  lemma AddedIntact(cap: nat, video: bool, pid: Pid, x: Piece)
    requires Declared(x.whole, video) && x.from < x.End() <= |x.whole| && x.End() >= 6
    requires x.from == 0 || x.from >= 6
    ensures PartAdded(cap, Some(Before(x)), pid, x.whole[x.from..x.End()], video) == Grown(cap, pid, x)
  {
    AppendedIntact(cap, video, pid, x);
    SettledIntact(video, pid, x.whole, x.End(), x.randomAccess);
  }
}
