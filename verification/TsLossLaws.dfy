/** Loss on the wire: the demuxer is honest behind every gap its counter shows. */
module TsLossLaws {
  import opened Bytes
  import opened TsPacket
  import opened PesPacket
  import opened PesReassembly
  import opened TsDemux
  import opened TsMux
  import opened TsTransport
  import opened TsDelivery
  import opened TsDeliveryLaws
  import opened TsLoss

  // ---- where pieces come from ------------------------------------------------------------------

  predicate IsOf(pid: Pid, op: Op, x: Piece)
  {
    op.Send? && op.pid == pid && x.whole == op.whole && x.randomAccess == op.af.randomAccess
  }

  predicate FromSome(pid: Pid, ops: seq<Op>, x: Piece)
  {
    ops != [] && (IsOf(pid, ops[0], x) || FromSome(pid, ops[1..], x))
  }

  lemma {:induction false} FromWhich(pid: Pid, ops: seq<Op>, x: Piece) returns (k: nat)
    requires FromSome(pid, ops, x)
    ensures k < |ops| && IsOf(pid, ops[k], x)
  {
    if IsOf(pid, ops[0], x) {
      k := 0;
    } else {
      k := FromWhich(pid, ops[1..], x);
      k := k + 1;
    }
  }

  predicate AllFrom(pid: Pid, ops: seq<Op>, xs: seq<Piece>)
  {
    forall i | 0 <= i < |xs| :: FromSome(pid, ops, xs[i])
  }

  lemma {:induction false} PiecesAllFrom(pid: Pid, ops: seq<Op>, from: nat, cc: Counter)
    requires ops != [] && ops[0].Send? && ops[0].pid == pid && from <= |ops[0].whole|
    ensures AllFrom(pid, ops, PiecesFrom(ops[0].af, ops[0].whole, from, cc))
    decreases |ops[0].whole| - from
  {
    if from < |ops[0].whole| {
      var x := PieceAt(ops[0].af, ops[0].whole, from, cc);
      PiecesAllFrom(pid, ops, x.End(), Next(cc));
    }
  }

  lemma AddsAllFrom(pid: Pid, ops: seq<Op>, cc: Counter)
    requires ops != []
    ensures AllFrom(pid, ops, AddsTo(pid, cc, ops[0]))
  {
    if ops[0].Send? && ops[0].pid == pid {
      PiecesAllFrom(pid, ops, 0, cc);
    }
  }

  lemma LaterAllFrom(pid: Pid, ops: seq<Op>, xs: seq<Piece>)
    requires ops != [] && AllFrom(pid, ops[1..], xs)
    ensures AllFrom(pid, ops, xs)
  {
  }

  lemma AllFromConcat(pid: Pid, ops: seq<Op>, a: seq<Piece>, b: seq<Piece>)
    requires AllFrom(pid, ops, a) && AllFrom(pid, ops, b)
    ensures AllFrom(pid, ops, a + b)
  {
  }

  lemma {:induction false} StreamFrom(pid: Pid, ops: seq<Op>, cc: Counter)
    ensures AllFrom(pid, ops, StreamOn(pid, ops, cc))
    decreases |ops|
  {
    if ops != [] {
      var xs, next := AddsTo(pid, cc, ops[0]), CounterAfter(pid, cc, ops[0]);
      var ys := StreamOn(pid, ops[1..], next);
      AddsAllFrom(pid, ops, cc);
      StreamFrom(pid, ops[1..], next);
      LaterAllFrom(pid, ops, ys);
      AllFromConcat(pid, ops, xs, ys);
    }
  }

  lemma StreamDeclared(pid: Pid, video: bool, ops: seq<Op>, cc: Counter)
    requires SendsDeclared(pid, video, ops)
    ensures AllDeclared(video, StreamOn(pid, ops, cc))
  {
    var xs := StreamOn(pid, ops, cc);
    StreamFrom(pid, ops, cc);
    forall i | 0 <= i < |xs| ensures Declared(xs[i].whole, video) {
      var k := FromWhich(pid, ops, xs[i]);
      assert SendDeclared(pid, video, ops[k]);
    }
  }

  // ---- the theorem -----------------------------------------------------------------------------

  /** Some PES packet sent on the PID parses to this. */
  predicate SentOn(pid: Pid, ops: seq<Op>, pes: Pes)
  {
    exists k | 0 <= k < |ops| :: Sends(pid, ops[k], pes)
  }

  predicate Sends(pid: Pid, op: Op, pes: Pes)
  {
    op.Send? && op.pid == pid && ParsePes(pid, op.whole, op.af.randomAccess) == Got(pes)
  }

  lemma SentWas(pid: Pid, ops: seq<Op>, cc: Counter, pes: Pes)
    requires WasSent(pid, StreamOn(pid, ops, cc), pes)
    ensures SentOn(pid, ops, pes)
  {
    var xs := StreamOn(pid, ops, cc);
    var i :| 0 <= i < |xs| && ParsePes(pid, xs[i].whole, xs[i].randomAccess) == Got(pes);
    StreamFrom(pid, ops, cc);
    var k := FromWhich(pid, ops, xs[i]);
    assert Sends(pid, ops[k], pes);
  }

  /** Every packet handed over is one that was sent, whole, or is marked as damaged. */
  predicate Truthful(pid: Pid, ops: seq<Op>, outs: seq<Outcome>)
  {
    forall k | 0 <= k < |outs| && outs[k].Complete? :: TruthfulAt(pid, ops, outs, k)
  }

  predicate TruthfulAt(pid: Pid, ops: seq<Op>, outs: seq<Outcome>, k: nat)
    requires k < |outs| && outs[k].Complete?
  {
    (k > 0 && IsMark(outs[k - 1])) || SentOn(pid, ops, outs[k].pes)
  }

  lemma HonestTruthful(pid: Pid, ops: seq<Op>, cc: Counter, outs: seq<Outcome>)
    requires Honest(pid, StreamOn(pid, ops, cc), outs)
    ensures Truthful(pid, ops, outs)
  {
    forall k | 0 <= k < |outs| && outs[k].Complete? ensures TruthfulAt(pid, ops, outs, k) {
      assert HonestAt(pid, StreamOn(pid, ops, cc), outs, k);
      if !(k > 0 && IsMark(outs[k - 1])) {
        SentWas(pid, ops, cc, outs[k].pes);
      }
    }
  }

  /** The flush is covered too when the last packet to arrive belongs to a bounded PES packet,
      or ends its PES packet. */
  predicate EndsWell(xs: seq<Piece>, kept: seq<nat>) { EndsClosed(xs, LastOf(None, kept)) }

  predicate EndsClosed(xs: seq<Piece>, last: Option<nat>)
  {
    last.Some? && last.value < |xs| ==>
      var x := xs[last.value];
      x.End() == |x.whole| || (|x.whole| >= 6 && TotalOf(x.whole).Some?)
  }

  lemma FlushHonest(pid: Pid, video: bool, xs: seq<Piece>, i: nat, part: Option<Partial>)
    requires i < |xs| && AllDeclared(video, xs) && Flight(part, xs[i])
    requires xs[i].End() == |xs[i].whole| || TotalOf(xs[i].whole).Some?
    ensures Honest(pid, xs, Owed(pid, part))
  {
    if xs[i].End() == |xs[i].whole| {
      OwedHonest(pid, video, xs, i, part, true);
    } else if part.Some? {
      DamagedHonest(pid, xs, part.value);
    }
  }

  /** No silent corruption. Take any run of the muxer, and let any packets of the PID be lost on
      the way as long as each gap shows (see `GapVerdict`); mix in any bytes on other PIDs.
      Then every PES packet the demuxer hands over on the PID is exactly one that was sent, or
      stands right after a damage mark. */
  lemma LossNeverSilent(caps: Caps, streams: Streams, pid: Pid, c: Counters, ops: seq<Op>, ts: seq<seq<byte>>,
                        kept: seq<nat>)
    requires pid in streams && pid != NULL_PID && SendsDeclared(pid, streams[pid], ops)
    requires Arrives(pid, StreamOn(pid, ops, c[pid]), None, kept)
    requires LiveOn(pid, ts) == Raws(pid, Picked(StreamOn(pid, ops, c[pid]), kept))
    requires NoTotal(Ran(caps, streams, IDLE, ts).1)
    ensures Truthful(pid, ops, OutcomesOn(pid, Ran(caps, streams, IDLE, ts).1))
    ensures EndsWell(StreamOn(pid, ops, c[pid]), kept)
        ==> Truthful(pid, ops, OutcomesOn(pid, RanAndFlushed(caps, streams, ts)))
  {
    var xs, video := StreamOn(pid, ops, c[pid]), streams[pid];
    RunLocal(caps, streams, IDLE, ts, pid);
    StreamChained(pid, ops, c[pid]);
    StreamDeclared(pid, video, ops, c[pid]);
    LossyRuns(caps.perPid, video, pid, ViewOf(IDLE, pid), xs, None, kept);
    LossyHonest(caps.perPid, video, pid, None, xs, None, kept);
    var (d, outs) := Ran(caps, streams, IDLE, ts);
    HonestTruthful(pid, ops, c[pid], OutcomesOn(pid, outs));
    FlushedOn(caps, streams, ts, pid);
    var part, last := ViewOf(d, pid).part, LastOf(None, kept);
    if last.None? {
      HonestConcat(pid, xs, OutcomesOn(pid, outs), Owed(pid, part));
      HonestTruthful(pid, ops, c[pid], OutcomesOn(pid, RanAndFlushed(caps, streams, ts)));
    } else if EndsWell(xs, kept) {
      FlushHonest(pid, video, xs, last.value, part);
      HonestConcat(pid, xs, OutcomesOn(pid, outs), Owed(pid, part));
      HonestTruthful(pid, ops, c[pid], OutcomesOn(pid, RanAndFlushed(caps, streams, ts)));
    }
  }
}
