/** One gap in a run: truthful exactly when it shows, or when what the gap filled up is excused;
    and what that means for the units the muxer writes. */
module TsLossGaps {
  import opened Bytes
  import opened TsPacket
  import opened PesPacket
  import opened PesReassembly
  import opened TsDemux
  import opened TsMux
  import opened TsTransport
  import opened TsDelivery
  import opened TsDeliveryLaws
  import opened TsLoss
  import opened TsLossLaws
  import opened TsLossUnseen

  // ---- the packets that arrive -----------------------------------------------------------------

  function Count(a: nat, b: nat): (r: seq<nat>)
    requires a <= b
    ensures |r| == b - a && forall k | 0 <= k < |r| :: r[k] == a + k
    decreases b - a
  {
    if a == b then [] else [a] + Count(a + 1, b)
  }

  lemma CountTail(a: nat, b: nat)
    requires a < b
    ensures Count(a, b) != [] && Count(a, b)[0] == a && Count(a, b)[1..] == Count(a + 1, b)
  {
  }

  lemma CountNone(a: nat)
    ensures Count(a, a) == []
  {
  }

  lemma NextShows(pid: Pid, xs: seq<Piece>, a: nat)
    requires a + 1 < |xs|
    ensures Shows(pid, xs, a, a + 1)
  {
  }

  lemma {:induction false} PickedCount(xs: seq<Piece>, a: nat, b: nat)
    requires a <= b <= |xs|
    ensures Picked(xs, Count(a, b)) == xs[a..b]
    decreases b - a
  {
    hide Count;
    if a < b {
      PickedCount(xs, a + 1, b);
      CountTail(a, b);
    } else {
      CountNone(a);
    }
  }

  lemma {:induction false} PickedConcat(xs: seq<Piece>, p: seq<nat>, q: seq<nat>)
    ensures Picked(xs, p + q) == Picked(xs, p) + Picked(xs, q)
  {
    if p == [] {
      assert p + q == q;
    } else {
      assert (p + q)[0] == p[0] && (p + q)[1..] == p[1..] + q;
      PickedConcat(xs, p[1..], q);
    }
  }

  lemma {:induction false} ArrivesCount(pid: Pid, xs: seq<Piece>, prev: Option<nat>, a: nat, b: nat)
    requires a <= b <= |xs| && (prev.Some? && a < b ==> Shows(pid, xs, prev.value, a))
    ensures Arrives(pid, xs, prev, Count(a, b))
    decreases b - a
  {
    hide Count, Shows;
    if a < b {
      if a + 1 < b { NextShows(pid, xs, a); }
      ArrivesCount(pid, xs, Some(a), a + 1, b);
      CountTail(a, b);
    } else {
      CountNone(a);
    }
  }

  lemma {:induction false} ArrivesThen(pid: Pid, xs: seq<Piece>, prev: Option<nat>, p: seq<nat>, q: seq<nat>)
    requires Arrives(pid, xs, prev, p) && Arrives(pid, xs, LastOf(prev, p), q)
    ensures Arrives(pid, xs, prev, p + q)
    decreases |p|
  {
    hide Shows;
    if p == [] {
      assert p + q == q;
    } else {
      ArrivesNext(pid, xs, prev, p);
      assert (p + q)[0] == p[0] && (p + q)[1..] == p[1..] + q;
      ArrivesThen(pid, xs, Some(p[0]), p[1..], q);
    }
  }

  lemma AroundArrives(pid: Pid, xs: seq<Piece>, i: nat, j: nat)
    requires Shows(pid, xs, i, j)
    ensures var kept := Count(0, i + 1) + Count(j, |xs|);
            && Arrives(pid, xs, None, kept) && Picked(xs, kept) == xs[..i + 1] + xs[j..]
            && LastOf(None, kept) == Some(|xs| - 1)
  {
    hide Arrives, Picked, Count, RawOf, SameButPcr;
    var n := |xs|;
    ArrivesCount(pid, xs, None, 0, i + 1);
    ArrivesCount(pid, xs, Some(i), j, n);
    ArrivesThen(pid, xs, None, Count(0, i + 1), Count(j, n));
    AroundPicked(xs, i, j);
  }

  lemma AroundPicked(xs: seq<Piece>, i: nat, j: nat)
    requires i < j <= |xs|
    ensures Picked(xs, Count(0, i + 1) + Count(j, |xs|)) == xs[..i + 1] + xs[j..]
  {
    hide *;
    PickedFront(xs, i + 1);
    PickedBack(xs, j);
    PickedBoth(xs, Count(0, i + 1), Count(j, |xs|), xs[..i + 1], xs[j..]);
  }

  lemma PickedBoth(xs: seq<Piece>, p: seq<nat>, q: seq<nat>, a: seq<Piece>, b: seq<Piece>)
    requires Picked(xs, p) == a && Picked(xs, q) == b
    ensures Picked(xs, p + q) == a + b
  {
    hide *;
    PickedConcat(xs, p, q);
  }

  lemma PickedFront(xs: seq<Piece>, n: nat)
    requires n <= |xs|
    ensures Picked(xs, Count(0, n)) == xs[..n]
  {
    hide *;
    PickedCount(xs, 0, n);
  }

  lemma PickedBack(xs: seq<Piece>, j: nat)
    requires j <= |xs|
    ensures Picked(xs, Count(j, |xs|)) == xs[j..]
  {
    hide *;
    PickedCount(xs, j, |xs|);
  }

  /** A run ends with the end of a PES packet. */
  lemma {:induction false} StreamEnds(pid: Pid, ops: seq<Op>, cc: Counter)
    requires StreamOn(pid, ops, cc) != []
    ensures var xs := StreamOn(pid, ops, cc); xs[|xs| - 1].End() == |xs[|xs| - 1].whole|
    decreases |ops|
  {
    hide PiecesOf;
    var own, next := AddsTo(pid, cc, ops[0]), CounterAfter(pid, cc, ops[0]);
    var rest := StreamOn(pid, ops[1..], next);
    if rest == [] {
      assert own + rest == own;
      AddsShape(pid, cc, ops[0]);
    } else {
      StreamEnds(pid, ops[1..], next);
      assert (own + rest)[|own + rest| - 1] == rest[|rest| - 1];
    }
  }

  // ---- one gap ------------------------------------------------------------------------------------

  lemma ShownGapTruthful(caps: Caps, streams: Streams, pid: Pid, c: Counters, ops: seq<Op>, ts: seq<seq<byte>>, i: nat,
                         j: nat)
    requires OneGap(caps, streams, pid, c[pid], ops, ts, i, j) && Shows(pid, StreamOn(pid, ops, c[pid]), i, j)
    ensures Truthful(pid, ops, OutcomesOn(pid, RanAndFlushed(caps, streams, ts)))
  {
    hide Truthful, OutcomesOn, RanAndFlushed, Ran, Shows, StreamOn, Arrives, Picked, Raws, Stray, Count, LastOf;
    var xs := StreamOn(pid, ops, c[pid]);
    AroundArrives(pid, xs, i, j);
    StreamEnds(pid, ops, c[pid]);
    LossNeverSilent(caps, streams, pid, c, ops, ts, Count(0, i + 1) + Count(j, |xs|));
  }

  /** One gap in any run, bounded or unbounded PES packets, inside one or across several: what
      is handed over is truthful exactly when the gap shows, or what it filled up is marked as
      short, does not parse or happens to be a PES packet that was sent. */
  lemma OneGapTruthful(caps: Caps, streams: Streams, pid: Pid, c: Counters, ops: seq<Op>, ts: seq<seq<byte>>, i: nat,
                       j: nat)
    requires OneGap(caps, streams, pid, c[pid], ops, ts, i, j)
    ensures var xs := StreamOn(pid, ops, c[pid]);
            && 6 <= xs[i].End() <= |xs[i].whole|
            && (Truthful(pid, ops, OutcomesOn(pid, RanAndFlushed(caps, streams, ts)))
                <==> Shows(pid, xs, i, j) || Excused(pid, ops, FilledUp(xs, i, j)))
  {
    hide Truthful, OutcomesOn, RanAndFlushed, Ran, Shows, StreamOn, Excused, Raws, Stray;
    var xs := StreamOn(pid, ops, c[pid]);
    if Shows(pid, xs, i, j) {
      HeadRan(caps.perPid, streams[pid], pid, ops, c[pid], i);
      ShownGapTruthful(caps, streams, pid, c, ops, ts, i, j);
    } else {
      UnseenGapTruthful(caps, streams, pid, c[pid], ops, ts, i, j);
    }
  }

  // ---- units ----------------------------------------------------------------------------------------

  /** The size of a unit's header. */
  function HeaderSize(u: PesUnit): (n: nat)
  {
    9 + StampSize(u.stamps)
  }

  /** The unit up to byte `a` of its PES packet, and then `s` in place of its own bytes. */
  function WithStray(u: PesUnit, a: nat, s: seq<byte>): (r: PesUnit)
    requires HeaderSize(u) <= a <= HeaderSize(u) + |u.payload|
  {
    var p := u.payload[..a - HeaderSize(u)] + s;
    u.(payload := if u.bounded && |p| >= |u.payload| then p[..|u.payload|] else p)
  }

  /** Enough stray bytes to fill a bounded unit; an unbounded one is never short. */
  predicate Enough(u: PesUnit, a: nat, s: seq<byte>)
  {
    u.bounded ==> a + |s| >= HeaderSize(u) + |u.payload|
  }

  lemma TotalOfUnit(u: PesUnit)
    requires Fits(u)
    ensures |PesBytes(u)| >= 6 && TotalOf(PesBytes(u)) == if u.bounded then Some(|PesBytes(u)|) else None
  {
    PesFront(u);
  }

  lemma StrayBytes(u: PesUnit, a: nat, s: seq<byte>, ra: bool)
    requires Fits(u) && HeaderSize(u) <= a <= HeaderSize(u) + |u.payload| && Enough(u, a, s)
    ensures Fits(WithStray(u, a, s)) && Mixed(PesBytes(u), a, s, ra).buf == PesBytes(WithStray(u, a, s))
  {
    hide PesHeader, TotalOf;
    TotalOfUnit(u);
    var h, w, p := PesHeader(u), PesBytes(u), u.payload[..a - HeaderSize(u)] + s;
    SameHeader(u, a, s);
    assert w[..a] == h + u.payload[..a - |h|];
    Assoc(h, u.payload[..a - |h|], s);
    assert w[..a] + s == h + p;
    if u.bounded { assert (h + p)[..|w|] == h + p[..|u.payload|]; }
  }

  lemma SameHeader(u: PesUnit, a: nat, s: seq<byte>)
    requires Fits(u) && HeaderSize(u) <= a <= HeaderSize(u) + |u.payload| && Enough(u, a, s)
    ensures Fits(WithStray(u, a, s)) && PesHeader(WithStray(u, a, s)) == PesHeader(u)
  {
  }

  /** A unit filled up to its length, or of no declared length, looks whole. */
  lemma LooksWhole(pid: Pid, u: PesUnit, a: nat, s: seq<byte>, ra: bool)
    requires Fits(u) && HasOptionalHeader(u.streamId) && HeaderSize(u) <= a <= HeaderSize(u) + |u.payload| && Enough(u, a, s)
    ensures Finished(pid, Mixed(PesBytes(u), a, s, ra)) == [Complete(Received(pid, WithStray(u, a, s), ra))]
  {
    hide ParsePes, PesBytes, TotalOf;
    StrayBytes(u, a, s, ra);
    TotalOfUnit(u);
    PesRoundTrip(pid, WithStray(u, a, s), ra);
    NothingAdded([Complete(Received(pid, WithStray(u, a, s), ra))]);
  }

  /** The header arrives with the first packet. */
  lemma HeaderArrives(pid: Pid, ops: seq<Op>, cc: Counter, i: nat, u: PesUnit)
    requires i < |StreamOn(pid, ops, cc)| && Fits(u)
    requires var op := ops[OpAt(pid, ops, cc, i)]; op.Send? && op.whole == PesBytes(u)
    ensures var x, op := StreamOn(pid, ops, cc)[i], ops[OpAt(pid, ops, cc, i)];
            && x.whole == PesBytes(u) && x.randomAccess == op.af.randomAccess
            && HeaderSize(u) <= x.End() <= HeaderSize(u) + |u.payload|
  {
    hide StreamOn, PiecesOf;
    var k := OpAt(pid, ops, cc, i);
    var q := Located(pid, ops, cc, i);
    var c1 := CounterOf(pid, ops, cc, k);
    var w, ra, own := ops[k].whole, ops[k].af.randomAccess, PiecesOf(ops[k].af, ops[k].whole, c1);
    ThreeParts(StreamOn(pid, ops[..k], cc), own, StreamOn(pid, ops[k + 1..], CounterAfter(pid, c1, ops[k])), q);
    PiecesCover(ops[k].af, w, c1);
    PieceInside(own, w, ra, q);
    assert own[0].Valid() && own[0].size >= HeaderSize(u);
    if q > 0 { PieceOrder(own, w, ra, 0, q); }
  }

  /** An unseen gap in a unit with a header, filled up: it is handed over as a unit that looks
      whole, unmarked, between everything before and after it. */
  lemma FilledUnmarked(caps: Caps, streams: Streams, pid: Pid, cc: Counter, ops: seq<Op>, ts: seq<seq<byte>>, i: nat,
                       j: nat, u: PesUnit)
    requires OneGap(caps, streams, pid, cc, ops, ts, i, j) && !Shows(pid, StreamOn(pid, ops, cc), i, j)
    requires Fits(u) && HasOptionalHeader(u.streamId)
    requires var op := ops[OpAt(pid, ops, cc, i)]; op.Send? && op.whole == PesBytes(u)
    requires var xs := StreamOn(pid, ops, cc); Enough(u, xs[i].End(), Stray(xs, Resumes(i, j)))
    ensures var xs, k := StreamOn(pid, ops, cc), OpAt(pid, ops, cc, i);
            var a, s := xs[i].End(), Stray(xs, Resumes(i, j));
            && HeaderSize(u) <= a <= HeaderSize(u) + |u.payload| && ops[k].Send?
            && var pes := Received(pid, WithStray(u, a, s), ops[k].af.randomAccess);
            && var outs := OutcomesOn(pid, RanAndFlushed(caps, streams, ts));
            && outs == AllDelivered(caps.perPid, pid, ops[..k]) + [Complete(pes)]
                       + AllDelivered(caps.perPid, pid, ops[Recovered(pid, ops, cc, Resumes(i, j))..])
            && (Truthful(pid, ops, outs) <==> SentOn(pid, ops, pes))
  {
    hide Truthful, OutcomesOn, RanAndFlushed, Ran, Shows, StreamOn, Raws, Stray, AllDelivered, Finished, SentOn,
         ParsePes, PesBytes, Mixed, OpAt;
    var xs, k := StreamOn(pid, ops, cc), OpAt(pid, ops, cc, i);
    var a, s, ra := xs[i].End(), Stray(xs, Resumes(i, j)), ops[k].af.randomAccess;
    HeaderArrives(pid, ops, cc, i, u);
    UnseenGapExact(caps, streams, pid, cc, ops, ts, i, j);
    UnseenGapTruthful(caps, streams, pid, cc, ops, ts, i, j);
    LooksWhole(pid, u, a, s, ra);
    ExcusedUnit(pid, ops, u, a, s, ra);
  }

  lemma ExcusedUnit(pid: Pid, ops: seq<Op>, u: PesUnit, a: nat, s: seq<byte>, ra: bool)
    requires Fits(u) && HasOptionalHeader(u.streamId) && HeaderSize(u) <= a <= HeaderSize(u) + |u.payload| && Enough(u, a, s)
    ensures Excused(pid, ops, Mixed(PesBytes(u), a, s, ra)) <==> SentOn(pid, ops, Received(pid, WithStray(u, a, s), ra))
  {
    hide ParsePes, PesBytes, TotalOf, SentOn;
    StrayBytes(u, a, s, ra);
    TotalOfUnit(u);
    PesRoundTrip(pid, WithStray(u, a, s), ra);
  }

  // ---- inside one PES packet ---------------------------------------------------------------------------

  /** Both sides of the gap in one PES packet: the bytes in between are missing. */
  lemma SameOpGap(pid: Pid, ops: seq<Op>, cc: Counter, i: nat, r: nat)
    requires i + 1 < r < |StreamOn(pid, ops, cc)| && OpAt(pid, ops, cc, r) == OpAt(pid, ops, cc, i)
    ensures var xs := StreamOn(pid, ops, cc);
            && xs[r].whole == xs[i].whole && !xs[r].Start()
            && xs[i].End() < xs[r].from <= |xs[i].whole| && Stray(xs, r) == xs[i].whole[xs[r].from..]
  {
    hide StreamOn, PiecesOf;
    var k := OpAt(pid, ops, cc, i);
    var p := Located(pid, ops, cc, i);
    var q := Located(pid, ops, cc, r);
    var c1 := CounterOf(pid, ops, cc, k);
    var w, ra, own := ops[k].whole, ops[k].af.randomAccess, PiecesOf(ops[k].af, ops[k].whole, c1);
    var head, rest := StreamOn(pid, ops[..k], cc), StreamOn(pid, ops[k + 1..], CounterAfter(pid, c1, ops[k]));
    ThreeParts(head, own, rest, p);
    ThreeParts(head, own, rest, q);
    PiecesCover(ops[k].af, w, c1);
    PieceOrder(own, w, ra, p, q);
    PieceInside(own, w, ra, q);
  }

  lemma ResumesLater(pid: Pid, xs: seq<Piece>, i: nat, j: nat)
    requires i < j < |xs| && !Shows(pid, xs, i, j)
    ensures i + 1 < j <= Resumes(i, j) <= |xs|
  {
    hide RawOf, SameButPcr;
  }

  /** A gap inside one PES packet that declares its length is never silent: the packet is
      handed over marked as short. */
  lemma GapInsideBounded(pid: Pid, video: bool, ops: seq<Op>, cc: Counter, i: nat, j: nat)
    requires var xs := StreamOn(pid, ops, cc);
             && i < j < |xs| && !Shows(pid, xs, i, j) && SendsDeclared(pid, video, ops) && Resumes(i, j) < |xs|
             && OpAt(pid, ops, cc, Resumes(i, j)) == OpAt(pid, ops, cc, i)
             && 6 <= xs[i].End() <= |xs[i].whole| && TotalOf(xs[i].whole).Some? && Declared(xs[i].whole, video)
    ensures var part := FilledUp(StreamOn(pid, ops, cc), i, j);
            part.total.Some? && |part.buf| < part.total.value && Excused(pid, ops, part)
  {
    hide StreamOn, Shows, OpAt, ParsePes;
    ResumesLater(pid, StreamOn(pid, ops, cc), i, j);
    SameOpGap(pid, ops, cc, i, Resumes(i, j));
  }

  lemma OneStream(pid: Pid, af: Adaptation, w: Scratch, cc: Counter)
    ensures StreamOn(pid, [Send(pid, af, w)], cc) == PiecesOf(af, w, cc)
  {
    hide PiecesOf;
    var ops := [Send(pid, af, w)];
    assert ops[1..] == [];
    AssocPieces(PiecesOf(af, w, cc), [], []);
  }

  lemma NotSent(pid: Pid, af: Adaptation, u: PesUnit, pes: Pes)
    requires Fits(u) && HasOptionalHeader(u.streamId) && |pes.payload| < |u.payload|
    ensures !SentOn(pid, [Send(pid, af, PesBytes(u))], pes)
  {
    hide ParsePes, PesBytes;
    PesRoundTrip(pid, u, af.randomAccess);
  }

  /** With one unit sent, bytes are missing behind the gap. */
  lemma StrayShort(pid: Pid, op: Op, cc: Counter, i: nat, j: nat)
    requires var xs := StreamOn(pid, [op], cc); op.Send? && op.pid == pid && i < j < |xs| && !Shows(pid, xs, i, j)
    ensures var xs := StreamOn(pid, [op], cc); xs[i].End() + |Stray(xs, Resumes(i, j))| < |op.whole|
  {
    hide Shows, PiecesOf, RawOf, SameButPcr;
    var xs, r := StreamOn(pid, [op], cc), Resumes(i, j);
    ResumesLater(pid, xs, i, j);
    OneStream(pid, op.af, op.whole, cc);
    PiecesCover(op.af, op.whole, cc);
    if r < |xs| {
      PieceOrder(xs, op.whole, op.af.randomAccess, i, r);
      PieceInside(xs, op.whole, op.af.randomAccess, r);
    } else {
      PieceOrder(xs, op.whole, op.af.randomAccess, i, j);
      PieceInside(xs, op.whole, op.af.randomAccess, j);
    }
  }

  /** Silent loss: an unbounded unit with a gap the counter does not show is handed over whole
      to all appearances, unmarked and with a shorter payload. */
  lemma SilentLoss(caps: Caps, streams: Streams, pid: Pid, cc: Counter, af: Adaptation, u: PesUnit, ts: seq<seq<byte>>,
                   i: nat, j: nat)
    requires !u.bounded && HasOptionalHeader(u.streamId)
    requires OneGap(caps, streams, pid, cc, [Send(pid, af, PesBytes(u))], ts, i, j)
    requires !Shows(pid, StreamOn(pid, [Send(pid, af, PesBytes(u))], cc), i, j)
    ensures var xs := StreamOn(pid, [Send(pid, af, PesBytes(u))], cc);
            var a, s := xs[i].End(), Stray(xs, Resumes(i, j));
            && HeaderSize(u) <= a && a + |s| < |PesBytes(u)|
            && var outs := OutcomesOn(pid, RanAndFlushed(caps, streams, ts));
            && outs == [Complete(Received(pid, WithStray(u, a, s), af.randomAccess))]
            && |WithStray(u, a, s).payload| < |u.payload| && !Truthful(pid, [Send(pid, af, PesBytes(u))], outs)
  {
    hide Truthful, OutcomesOn, RanAndFlushed, Ran, Shows, StreamOn, Raws, Stray, SentOn, ParsePes, OneGap;
    var op := Send(pid, af, PesBytes(u));
    var xs := StreamOn(pid, [op], cc);
    GapBounds(caps, streams, pid, cc, [op], ts, i, j);
    StrayShort(pid, op, cc, i, j);
    FilledUnmarked(caps, streams, pid, cc, [op], ts, i, j, u);
    var a, s := xs[i].End(), Stray(xs, Resumes(i, j));
    NotSent(pid, af, u, Received(pid, WithStray(u, a, s), af.randomAccess));
    AloneDelivered(caps.perPid, pid, op, cc, i, Resumes(i, j),
                   [Complete(Received(pid, WithStray(u, a, s), af.randomAccess))]);
  }

  lemma GapBounds(caps: Caps, streams: Streams, pid: Pid, cc: Counter, ops: seq<Op>, ts: seq<seq<byte>>, i: nat, j: nat)
    requires OneGap(caps, streams, pid, cc, ops, ts, i, j)
    ensures i < j < |StreamOn(pid, ops, cc)|
  {
  }

  /** Nothing was sent before it or after it. */
  lemma AloneDelivered(cap: nat, pid: Pid, op: Op, cc: Counter, i: nat, r: nat, mid: seq<Outcome>)
    requires i < |StreamOn(pid, [op], cc)| && 0 < r && op.Send? && op.pid == pid
    ensures var k, m := OpAt(pid, [op], cc, i), Recovered(pid, [op], cc, r);
            AllDelivered(cap, pid, [op][..k]) + mid + AllDelivered(cap, pid, [op][m..]) == mid
  {
    hide PiecesOf;
    var ops := [op];
    OneStream(pid, op.af, op.whole, cc);
    PiecesCover(op.af, op.whole, cc);
    assert ops[..0] == [] && ops[1..] == [];
    Cat(mid, [], [], []);
  }
}
