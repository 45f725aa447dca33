/** With packets lost: which gaps the continuity counter shows, and that behind those gaps the
    demuxer never passes off a damaged PES packet as whole. */
module TsLoss {
  import opened Bytes
  import opened TsPacket
  import opened PesPacket
  import opened PesReassembly
  import opened TsDemux
  import opened TsMux
  import opened TsTransport
  import opened TsDelivery

  // ---- counters ----------------------------------------------------------------------------

  lemma {:induction false} CounterAt(xs: seq<Piece>, i: nat, j: nat)
    requires Chained(xs) && i <= j < |xs|
    ensures xs[j].cc == (xs[i].cc + (j - i)) % 16
    decreases j - i
  {
    if i < j {
      CounterAt(xs, i, j - 1);
      assert Follows(xs[j - 1], xs[j]);
      NextMany(xs[i].cc, j - 1 - i);
    }
  }

  lemma CounterGap(a: Counter, b: Counter, g: nat)
    requires g > 0 && b == (a + g) % 16
    ensures (b == a <==> g % 16 == 0) && (b == Next(a) <==> g % 16 == 1)
  {
  }

  /** The packet `g` places after `x`, seen next: exactly what the demuxer makes of it. A gap is
      missed when the counter has come round (`g % 16 == 1`), or stands still on a packet that
      repeats the last one byte for byte, which is dropped as a duplicate. */
  lemma GapVerdict(pid: Pid, x: Piece, y: Piece, g: nat)
    requires x.Valid() && y.Valid() && pid != NULL_PID && g > 0 && y.cc == (x.cc + g) % 16
    ensures var (c, verdict) := Checked(SeenBy(pid, x), Parse(Raw(pid, y)).value, Raw(pid, y));
            var same := SameButPcr(Raw(pid, x), Raw(pid, y));
            && (verdict == InSequence <==> g % 16 == 1)
            && (verdict == Repeat <==> g % 16 == 0 && same)
            && (verdict == Jumped <==> g % 16 >= 2 || (g % 16 == 0 && !same))
            && (verdict != Repeat ==> c == SeenBy(pid, y))
  {
    hide Raw;
    hide Parse;
    hide SameButPcr;
    RawReads(pid, y);
    CounterGap(x.cc, y.cc, g);
  }

  // ---- lossy arrival -------------------------------------------------------------------------

  /** Packet `j` of the stream can follow packet `i` without the loss between going unseen. */
  predicate Shows(pid: Pid, xs: seq<Piece>, i: nat, j: nat)
  {
    && i < j < |xs|
    && (j == i + 1 || (j - i) % 16 >= 2 || ((j - i) % 16 == 0 && !SameButPcr(RawOf(pid)(xs[i]), RawOf(pid)(xs[j]))))
  }

  /** Some of the stream's packets arrive, in order, after packet `prev`. */
  predicate Arrives(pid: Pid, xs: seq<Piece>, prev: Option<nat>, kept: seq<nat>)
    decreases |kept|
  {
    || kept == []
    || (kept[0] < |xs| && (prev.Some? ==> Shows(pid, xs, prev.value, kept[0])) && Arrives(pid, xs, Some(kept[0]), kept[1..]))
  }

  function Picked(xs: seq<Piece>, kept: seq<nat>): (r: seq<Piece>)
  {
    if kept == [] then []
    else (if kept[0] < |xs| then [xs[kept[0]]] else []) + Picked(xs, kept[1..])
  }

  function VerdictAfter(prev: Option<nat>, j: nat): (v: Verdict)
  {
    if prev.Some? && j != prev.value + 1 then Jumped else InSequence
  }

  function LossyRan(cap: nat, video: bool, pid: Pid, part: Option<Partial>, xs: seq<Piece>, prev: Option<nat>,
                    kept: seq<nat>)
    : (r: (Option<Partial>, seq<Outcome>))
    decreases |kept|
  {
    if kept == [] || kept[0] >= |xs| then (part, [])
    else
      var (part1, outs1) := PieceRouted(cap, video, pid, part, VerdictAfter(prev, kept[0]), xs[kept[0]]);
      var (part2, outs2) := LossyRan(cap, video, pid, part1, xs, Some(kept[0]), kept[1..]);
      (part2, outs1 + outs2)
  }

  /** What the demuxer makes of packet `j` after packet `prev`. */
  lemma ShownVerdict(pid: Pid, xs: seq<Piece>, prev: Option<nat>, j: nat)
    requires Chained(xs) && pid != NULL_PID && j < |xs| && (prev.Some? ==> Shows(pid, xs, prev.value, j))
    ensures var seen := if prev.Some? then SeenBy(pid, xs[prev.value]) else UNSEEN;
            Checked(seen, Parse(Raw(pid, xs[j])).value, Raw(pid, xs[j])) == (SeenBy(pid, xs[j]), VerdictAfter(prev, j))
  {
    hide Raw;
    hide Parse;
    hide SameButPcr;
    hide Checked;
    if prev.Some? {
      var i := prev.value;
      CounterAt(xs, i, j);
      GapVerdict(pid, xs[i], xs[j], j - i);
    } else {
      InOrder(pid, UNSEEN, xs[j]);
    }
  }

  lemma StepLossy(cap: nat, video: bool, pid: Pid, v: View, xs: seq<Piece>, prev: Option<nat>, j: nat)
    requires Chained(xs) && pid != NULL_PID && j < |xs| && (prev.Some? ==> Shows(pid, xs, prev.value, j))
    requires v.seen == if prev.Some? then SeenBy(pid, xs[prev.value]) else UNSEEN
    ensures var (part, outs) := PieceRouted(cap, video, pid, v.part, VerdictAfter(prev, j), xs[j]);
            PidProcessed(cap, video, v, Raw(pid, xs[j])) == (View(SeenBy(pid, xs[j]), part), outs)
  {
    hide Raw;
    hide Parse;
    hide Checked;
    hide PieceRouted;
    ShownVerdict(pid, xs, prev, j);
    PieceProcessed(cap, video, pid, v, xs[j]);
  }

  lemma {:induction false} LossyRuns(cap: nat, video: bool, pid: Pid, v: View, xs: seq<Piece>, prev: Option<nat>,
                                     kept: seq<nat>)
    requires Chained(xs) && pid != NULL_PID && Arrives(pid, xs, prev, kept) && (prev.Some? ==> prev.value < |xs|)
    requires v.seen == if prev.Some? then SeenBy(pid, xs[prev.value]) else UNSEEN
    ensures var (v', outs) := PidRan(cap, video, v, Raws(pid, Picked(xs, kept)));
            (v'.part, outs) == LossyRan(cap, video, pid, v.part, xs, prev, kept)
    decreases |kept|
  {
    hide Raw;
    hide Parse;
    hide PieceRouted;
    hide PidProcessed;
    if kept != [] {
      var j := kept[0];
      StepLossy(cap, video, pid, v, xs, prev, j);
      var v1 := PidProcessed(cap, video, v, Raw(pid, xs[j])).0;
      LossyRuns(cap, video, pid, v1, xs, Some(j), kept[1..]);
      var ys := Picked(xs, kept);
      assert ys == [xs[j]] + Picked(xs, kept[1..]);
      RawsTail(pid, ys);
      PidRanStep(cap, video, v, Raw(pid, xs[j]), Raws(pid, ys[1..]));
    }
  }

  // ---- honesty -------------------------------------------------------------------------------

  /** The packet is one that was sent, whole. */
  predicate WasSent(pid: Pid, xs: seq<Piece>, pes: Pes)
  {
    exists i | 0 <= i < |xs| :: ParsePes(pid, xs[i].whole, xs[i].randomAccess) == Got(pes)
  }

  predicate IsMark(o: Outcome)
  {
    o.Malformed? && o.reason.Damaged?
  }

  /** Every packet handed over was sent just so, or has a damage mark right before it. */
  predicate Honest(pid: Pid, xs: seq<Piece>, outs: seq<Outcome>)
  {
    forall k | 0 <= k < |outs| && outs[k].Complete? :: HonestAt(pid, xs, outs, k)
  }

  predicate HonestAt(pid: Pid, xs: seq<Piece>, outs: seq<Outcome>, k: nat)
    requires k < |outs| && outs[k].Complete?
  {
    (k > 0 && IsMark(outs[k - 1])) || WasSent(pid, xs, outs[k].pes)
  }

  lemma HonestConcat(pid: Pid, xs: seq<Piece>, a: seq<Outcome>, b: seq<Outcome>)
    requires Honest(pid, xs, a) && Honest(pid, xs, b)
    ensures Honest(pid, xs, a + b)
  {
    forall k | 0 <= k < |a + b| && (a + b)[k].Complete? ensures HonestAt(pid, xs, a + b, k) {
      if k < |a| {
        assert HonestAt(pid, xs, a, k);
      } else {
        assert HonestAt(pid, xs, b, k - |a|);
      }
    }
  }

  lemma CleanHonest(pid: Pid, xs: seq<Piece>, i: nat)
    requires i < |xs|
    ensures Honest(pid, xs, Clean(pid, xs[i].whole, xs[i].randomAccess))
  {
  }

  lemma DamagedHonest(pid: Pid, xs: seq<Piece>, part: Partial)
    requires part.damage.Some? || (part.total.Some? && |part.buf| < part.total.value)
    ensures Honest(pid, xs, Finished(pid, part))
  {
  }

  // ---- what is in flight ------------------------------------------------------------------------

  /** After packet `x`: nothing, something marked as damaged, or the packet of `x` intact up to
      there. */
  predicate Flight(part: Option<Partial>, x: Piece)
  {
    || part.None?
    || part.value.damage.Some?
    || (&& 6 <= x.End() <= |x.whole| && part.value == Intact(x.whole, x.End(), x.randomAccess)
        && (TotalOf(x.whole).Some? ==> x.End() < |x.whole|))
  }

  predicate AllDeclared(video: bool, xs: seq<Piece>)
  {
    forall i | 0 <= i < |xs| :: Declared(xs[i].whole, video)
  }

  lemma GrownFlight(cap: nat, pid: Pid, xs: seq<Piece>, j: nat)
    requires j < |xs| && 6 <= xs[j].End() <= |xs[j].whole|
    ensures Flight(Grown(cap, pid, xs[j]).0, xs[j]) && Honest(pid, xs, Grown(cap, pid, xs[j]).1)
  {
    CleanHonest(pid, xs, j);
  }

  /** What was in flight is handed over honestly when the next packet starts another. */
  lemma OwedHonest(pid: Pid, video: bool, xs: seq<Piece>, i: nat, part: Option<Partial>, whole: bool)
    requires i < |xs| && AllDeclared(video, xs) && Flight(part, xs[i]) && (whole ==> xs[i].End() == |xs[i].whole|)
    ensures Honest(pid, xs, Owed(pid, PartMarked(part, if whole then InSequence else Jumped)))
  {
    if part.Some? {
      var x := xs[i];
      if part.value.damage.Some? || !whole {
        DamagedHonest(pid, xs, PartMarked(part, if whole then InSequence else Jumped).value);
      } else {
        FinishedIntact(pid, x.whole, x.randomAccess, video);
        CleanHonest(pid, xs, i);
      }
    }
  }

  /** A packet that starts a PES packet. */
  lemma StartHonest(cap: nat, video: bool, pid: Pid, part: Option<Partial>, verdict: Verdict, xs: seq<Piece>, j: nat)
    requires j < |xs| && xs[j].Valid() && xs[j].Start() && Declared(xs[j].whole, video)
    requires Honest(pid, xs, Owed(pid, PartMarked(part, verdict)))
    ensures var (part', outs) := PieceRouted(cap, video, pid, part, verdict, xs[j]);
            Flight(part', xs[j]) && Honest(pid, xs, outs)
  {
    RoutedOpens(cap, video, pid, PartMarked(part, verdict), xs[j]);
    GrownFlight(cap, pid, xs, j);
    HonestConcat(pid, xs, Owed(pid, PartMarked(part, verdict)), Grown(cap, pid, xs[j]).1);
    StartUnmarked(cap, video, pid, part, verdict, xs[j]);
  }

  /** Marking first or passing the marked packet in comes to the same. */
  lemma StartUnmarked(cap: nat, video: bool, pid: Pid, part: Option<Partial>, verdict: Verdict, x: Piece)
    requires x.Valid()
    ensures PieceRouted(cap, video, pid, part, verdict, x)
         == PieceRouted(cap, video, pid, PartMarked(part, verdict), InSequence, x)
  {
  }

  lemma AddedDamaged(cap: nat, video: bool, pid: Pid, xs: seq<Piece>, part: Partial, payload: seq<byte>, x: Piece)
    requires part.damage.Some?
    ensures var (part', outs) := PartAdded(cap, Some(part), pid, payload, video);
            Flight(part', x) && Honest(pid, xs, outs)
  {
    match Appended(cap, pid, part, payload, video)
    case Closed(_) =>
    case Kept(more) =>
      if more.total.Some? && |more.buf| >= more.total.value {
        DamagedHonest(pid, xs, more.(buf := more.buf[..more.total.value]));
      }
  }

  /** A continuation of a marked packet, or of none. */
  lemma MoreDamaged(cap: nat, video: bool, pid: Pid, part: Option<Partial>, xs: seq<Piece>, j: nat)
    requires j < |xs| && xs[j].Valid() && !xs[j].Start() && (part.Some? ==> part.value.damage.Some?)
    ensures var (part', outs) := PieceRouted(cap, video, pid, part, InSequence, xs[j]);
            Flight(part', xs[j]) && Honest(pid, xs, outs)
  {
    var y := xs[j];
    if part.Some? {
      var payload := y.whole[y.from..y.End()];
      AddedDamaged(cap, video, pid, xs, part.value, payload, y);
      NothingAdded(PartAdded(cap, part, pid, payload, video).1);
    } else {
      RoutedDead(cap, video, pid, y);
    }
  }

  lemma MoreIntact(cap: nat, video: bool, pid: Pid, xs: seq<Piece>, i: nat, j: nat)
    requires Chained(xs) && AllDeclared(video, xs) && j == i + 1 < |xs| && !xs[j].Start() && 6 <= xs[i].End() <= |xs[i].whole|
    ensures var part := Some(Intact(xs[i].whole, xs[i].End(), xs[i].randomAccess));
            var (part', outs) := PieceRouted(cap, video, pid, part, InSequence, xs[j]);
            Flight(part', xs[j]) && Honest(pid, xs, outs)
  {
    assert Follows(xs[i], xs[j]);
    RoutedGrows(cap, video, pid, xs[j]);
    GrownFlight(cap, pid, xs, j);
  }

  /** One packet, after packet `i` or after a seen gap. */
  lemma StepHonest(cap: nat, video: bool, pid: Pid, part: Option<Partial>, xs: seq<Piece>, i: nat, j: nat)
    requires Chained(xs) && AllDeclared(video, xs) && i < j < |xs| && Flight(part, xs[i])
    ensures var (part', outs) := PieceRouted(cap, video, pid, part, VerdictAfter(Some(i), j), xs[j]);
            Flight(part', xs[j]) && Honest(pid, xs, outs)
  {
    var verdict := VerdictAfter(Some(i), j);
    var marked := PartMarked(part, verdict);
    StartUnmarked(cap, video, pid, part, verdict, xs[j]);
    if xs[j].Start() {
      assert j == i + 1 ==> Follows(xs[i], xs[j]);
      OwedHonest(pid, video, xs, i, part, j == i + 1);
      StartHonest(cap, video, pid, part, verdict, xs, j);
    } else if marked.Some? && marked.value.damage.None? {
      MoreIntact(cap, video, pid, xs, i, j);
    } else {
      MoreDamaged(cap, video, pid, marked, xs, j);
    }
  }

  lemma FirstHonest(cap: nat, video: bool, pid: Pid, xs: seq<Piece>, j: nat)
    requires Chained(xs) && AllDeclared(video, xs) && j < |xs|
    ensures var (part', outs) := PieceRouted(cap, video, pid, None, InSequence, xs[j]);
            Flight(part', xs[j]) && Honest(pid, xs, outs)
  {
    if xs[j].Start() {
      StartHonest(cap, video, pid, None, InSequence, xs, j);
    } else {
      MoreDamaged(cap, video, pid, None, xs, j);
    }
  }

  /** The last packet to arrive, if any does. */
  function LastOf(prev: Option<nat>, kept: seq<nat>): (r: Option<nat>)
  {
    if kept == [] then prev else Some(kept[|kept| - 1])
  }

  /** What is in flight once packet `prev`, or none, has arrived. */
  predicate FlightAfter(xs: seq<Piece>, prev: Option<nat>, part: Option<Partial>)
  {
    if prev.Some? then prev.value < |xs| && Flight(part, xs[prev.value]) else part.None?
  }

  /** A run that ends well: honest so far, with `last` the last packet to arrive. */
  predicate Fine(pid: Pid, xs: seq<Piece>, last: Option<nat>, r: (Option<Partial>, seq<Outcome>))
  {
    Honest(pid, xs, r.1) && FlightAfter(xs, last, r.0)
  }

  lemma StepFine(cap: nat, video: bool, pid: Pid, part: Option<Partial>, xs: seq<Piece>, prev: Option<nat>, j: nat)
    requires Chained(xs) && AllDeclared(video, xs) && FlightAfter(xs, prev, part) && j < |xs| && (prev.Some? ==> prev.value < j)
    ensures Fine(pid, xs, Some(j), PieceRouted(cap, video, pid, part, VerdictAfter(prev, j), xs[j]))
  {
    if prev.Some? {
      StepHonest(cap, video, pid, part, xs, prev.value, j);
    } else {
      FirstHonest(cap, video, pid, xs, j);
    }
  }

  lemma FineThen(pid: Pid, xs: seq<Piece>, a: (Option<Partial>, seq<Outcome>), b: (Option<Partial>, seq<Outcome>),
                 mid: Option<nat>, last: Option<nat>)
    requires Fine(pid, xs, mid, a) && Fine(pid, xs, last, b)
    ensures Fine(pid, xs, last, (b.0, a.1 + b.1))
  {
    HonestConcat(pid, xs, a.1, b.1);
  }

  lemma ArrivesNext(pid: Pid, xs: seq<Piece>, prev: Option<nat>, kept: seq<nat>)
    requires Arrives(pid, xs, prev, kept) && kept != []
    ensures kept[0] < |xs| && (prev.Some? ==> prev.value < kept[0]) && Arrives(pid, xs, Some(kept[0]), kept[1..])
    ensures LastOf(prev, kept) == LastOf(Some(kept[0]), kept[1..])
  {
  }

  lemma {:induction false} LossyHonest(cap: nat, video: bool, pid: Pid, part: Option<Partial>, xs: seq<Piece>,
                                       prev: Option<nat>, kept: seq<nat>)
    requires Chained(xs) && AllDeclared(video, xs) && Arrives(pid, xs, prev, kept) && FlightAfter(xs, prev, part)
    ensures Fine(pid, xs, LastOf(prev, kept), LossyRan(cap, video, pid, part, xs, prev, kept))
    decreases |kept|
  {
    if kept != [] {
      var j := kept[0];
      ArrivesNext(pid, xs, prev, kept);
      StepFine(cap, video, pid, part, xs, prev, j);
      var r := PieceRouted(cap, video, pid, part, VerdictAfter(prev, j), xs[j]);
      LossyHonest(cap, video, pid, r.0, xs, Some(j), kept[1..]);
      FineThen(pid, xs, r, LossyRan(cap, video, pid, r.0, xs, Some(j), kept[1..]), Some(j), LastOf(prev, kept));
    }
  }
}
