/** Without loss, every PES packet the muxer sends comes out of the demuxer whole and once. */
module TsDelivery {
  import opened Bytes
  import opened TsPacket
  import opened PesReassembly
  import opened TsDemux
  import opened TsMux
  import opened TsTransport

  lemma NothingAdded(x: seq<Outcome>)
    ensures [] + x == x && x + [] == x
  {
  }

  // ---- packets in sequence -------------------------------------------------------------------

  /** The packet in flight on a PID and the outcomes, over packets that arrive in sequence. */
  function PiecesRan(cap: nat, video: bool, pid: Pid, part: Option<Partial>, xs: seq<Piece>)
    : (r: (Option<Partial>, seq<Outcome>))
    decreases |xs|
  {
    if xs == [] then (part, [])
    else
      var (part1, outs1) := PieceRouted(cap, video, pid, part, InSequence, xs[0]);
      var (part2, outs2) := PiecesRan(cap, video, pid, part1, xs[1..]);
      (part2, outs1 + outs2)
  }

  lemma StepInOrder(cap: nat, video: bool, pid: Pid, v: View, x: Piece)
    requires x.Valid() && pid != NULL_PID && Expects(v.seen, x.cc)
    ensures var (part, outs) := PieceRouted(cap, video, pid, v.part, InSequence, x);
            PidProcessed(cap, video, v, Raw(pid, x)) == (View(SeenBy(pid, x), part), outs)
    ensures Expects(SeenBy(pid, x), Next(x.cc))
  {
    hide Raw;
    hide Parse;
    hide Checked;
    hide PieceRouted;
    InOrder(pid, v.seen, x);
    PieceProcessed(cap, video, pid, v, x);
  }

  lemma RawsTail(pid: Pid, xs: seq<Piece>)
    requires xs != [] && xs[0].Valid()
    ensures Raws(pid, xs) == [Raw(pid, xs[0])] + Raws(pid, xs[1..])
  {
  }

  /** Packets whose counters move on by one, whatever they carry. */
  predicate InStep(xs: seq<Piece>)
  {
    AllValid(xs) && forall i, j | 0 <= i && j == i + 1 < |xs| :: xs[j].cc == Next(xs[i].cc)
  }

  lemma InStepTail(xs: seq<Piece>)
    requires InStep(xs) && xs != []
    ensures InStep(xs[1..]) && xs[0].Valid() && (|xs| > 1 ==> xs[1..][0].cc == Next(xs[0].cc))
  {
    var ys := xs[1..];
    forall i, j | 0 <= i && j == i + 1 < |ys| ensures ys[j].cc == Next(ys[i].cc) {
      assert xs[j + 1].cc == Next(xs[i + 1].cc);
    }
  }

  lemma ChainedInStep(xs: seq<Piece>)
    requires Chained(xs)
    ensures InStep(xs)
  {
    forall i, j | 0 <= i && j == i + 1 < |xs| ensures xs[j].cc == Next(xs[i].cc) {
      assert Follows(xs[i], xs[j]);
    }
  }

  /** What the PID has seen once these packets have arrived. */
  function LastSeen(pid: Pid, seen: Continuity, xs: seq<Piece>): (c: Continuity)
    requires AllValid(xs)
  {
    if xs == [] then seen else SeenBy(pid, xs[|xs| - 1])
  }

  lemma LastSeenTail(pid: Pid, seen: Continuity, xs: seq<Piece>)
    requires AllValid(xs) && xs != []
    ensures LastSeen(pid, seen, xs) == LastSeen(pid, SeenBy(pid, xs[0]), xs[1..])
  {
  }

  /** Packets in step are never taken for lossy or repeated: the demuxer just appends. */
  lemma {:induction false} InStepRan(cap: nat, video: bool, pid: Pid, v: View, xs: seq<Piece>)
    requires InStep(xs) && pid != NULL_PID && (xs != [] ==> Expects(v.seen, xs[0].cc))
    ensures var (part, outs) := PiecesRan(cap, video, pid, v.part, xs);
            PidRan(cap, video, v, Raws(pid, xs)) == (View(LastSeen(pid, v.seen, xs), part), outs)
    decreases |xs|
  {
    hide Raw;
    hide Parse;
    hide PieceRouted;
    hide PidProcessed;
    hide SeenBy;
    hide LastSeen;
    if xs != [] {
      StepInOrder(cap, video, pid, v, xs[0]);
      InStepTail(xs);
      var v1 := PidProcessed(cap, video, v, Raw(pid, xs[0])).0;
      InStepRan(cap, video, pid, v1, xs[1..]);
      LastSeenTail(pid, v.seen, xs);
      RawsTail(pid, xs);
      PidRanStep(cap, video, v, Raw(pid, xs[0]), Raws(pid, xs[1..]));
    } else {
      NothingSeen(pid, v.seen);
    }
  }

  lemma NothingSeen(pid: Pid, seen: Continuity)
    ensures LastSeen(pid, seen, []) == seen
  {
  }

  lemma PiecesCons(cap: nat, video: bool, pid: Pid, part: Option<Partial>, x: Piece, xs: seq<Piece>)
    ensures var (part1, outs1) := PieceRouted(cap, video, pid, part, InSequence, x);
            var (part2, outs2) := PiecesRan(cap, video, pid, part1, xs);
            PiecesRan(cap, video, pid, part, [x] + xs) == (part2, outs1 + outs2)
  {
    assert ([x] + xs)[1..] == xs;
  }

  /** Running `a` from `part`, then `b` from what that leaves. */
  function RanBoth(cap: nat, video: bool, pid: Pid, part: Option<Partial>, a: seq<Piece>, b: seq<Piece>)
    : (r: (Option<Partial>, seq<Outcome>))
  {
    var (part1, outs1) := PiecesRan(cap, video, pid, part, a);
    var (part2, outs2) := PiecesRan(cap, video, pid, part1, b);
    (part2, outs1 + outs2)
  }

  lemma RanBothCons(cap: nat, video: bool, pid: Pid, part: Option<Partial>, x: Piece, rest: seq<Piece>, b: seq<Piece>)
    ensures var (part1, outs1) := PieceRouted(cap, video, pid, part, InSequence, x);
            var (part2, outs2) := RanBoth(cap, video, pid, part1, rest, b);
            RanBoth(cap, video, pid, part, [x] + rest, b) == (part2, outs1 + outs2)
  {
    var (part1, outs1) := PieceRouted(cap, video, pid, part, InSequence, x);
    PiecesCons(cap, video, pid, part, x, rest);
    var (part2, outs2) := PiecesRan(cap, video, pid, part1, rest);
    Regroup(outs1, outs2, PiecesRan(cap, video, pid, part2, b).1);
  }

  lemma {:induction false} PiecesRanConcat(cap: nat, video: bool, pid: Pid, part: Option<Partial>, a: seq<Piece>,
                                           b: seq<Piece>)
    ensures PiecesRan(cap, video, pid, part, a + b) == RanBoth(cap, video, pid, part, a, b)
    decreases |a|
  {
    if a == [] {
      assert a + b == b;
      NothingAdded(PiecesRan(cap, video, pid, part, b).1);
    } else {
      var x, rest := a[0], a[1..];
      assert a == [x] + rest && a + b == [x] + (rest + b);
      PiecesRanConcat(cap, video, pid, PieceRouted(cap, video, pid, part, InSequence, x).0, rest, b);
      PiecesCons(cap, video, pid, part, x, rest + b);
      RanBothCons(cap, video, pid, part, x, rest, b);
    }
  }

  // ---- one packet --------------------------------------------------------------------------

  function Owed(pid: Pid, part: Option<Partial>): (r: seq<Outcome>)
  {
    if part.Some? then Finished(pid, part.value) else []
  }

  /** A continuation with no packet in flight is dropped. */
  lemma RoutedDead(cap: nat, video: bool, pid: Pid, x: Piece)
    requires x.Valid() && !x.Start()
    ensures PieceRouted(cap, video, pid, None, InSequence, x) == (None, [])
  {
    NothingAdded([]);
  }

  lemma RoutedGrows(cap: nat, video: bool, pid: Pid, x: Piece)
    requires x.Valid() && Declared(x.whole, video) && x.from >= 6
    ensures PieceRouted(cap, video, pid, Some(Before(x)), InSequence, x) == Grown(cap, pid, x)
  {
    AddedIntact(cap, video, pid, x);
    NothingAdded(Grown(cap, pid, x).1);
  }

  /** A start closes what was in flight. */
  lemma RoutedOpens(cap: nat, video: bool, pid: Pid, part: Option<Partial>, x: Piece)
    requires x.Valid() && Declared(x.whole, video) && x.Start()
    ensures x.End() >= 6
    ensures PieceRouted(cap, video, pid, part, InSequence, x)
         == (Grown(cap, pid, x).0, Owed(pid, part) + Grown(cap, pid, x).1)
  {
    AddedIntact(cap, video, pid, x);
  }

  // ---- one PES packet --------------------------------------------------------------------

  /** What a whole PES packet gives: itself, or an overflow when it exceeds the per-PID cap. */
  function Delivered(cap: nat, pid: Pid, w: seq<byte>, randomAccess: bool): (r: seq<Outcome>)
  {
    if |w| > cap then [Overflow(pid)] else Clean(pid, w, randomAccess)
  }

  /** Of that, what its own packets give; an unbounded packet waits for the next start. */
  function Early(cap: nat, pid: Pid, w: seq<byte>, randomAccess: bool): (r: seq<Outcome>)
    requires |w| >= 6
  {
    if |w| <= cap && TotalOf(w).None? then [] else Delivered(cap, pid, w, randomAccess)
  }

  function Waiting(cap: nat, w: seq<byte>, randomAccess: bool): (r: Option<Partial>)
    requires |w| >= 6
  {
    if |w| <= cap && TotalOf(w).None? then Some(Intact(w, |w|, randomAccess)) else None
  }

  lemma EarlyThenOwed(cap: nat, video: bool, pid: Pid, w: seq<byte>, randomAccess: bool)
    requires Declared(w, video)
    ensures Early(cap, pid, w, randomAccess) + Owed(pid, Waiting(cap, w, randomAccess)) == Delivered(cap, pid, w, randomAccess)
  {
    FinishedIntact(pid, w, randomAccess, video);
  }

  lemma {:induction false} RestDead(cap: nat, video: bool, pid: Pid, af: Adaptation, w: seq<byte>, from: nat,
                                    cc: Counter)
    requires 0 < from <= |w|
    ensures PiecesRan(cap, video, pid, None, PiecesFrom(af, w, from, cc)) == (None, [])
    decreases |w| - from
  {
    if from < |w| {
      var x := PieceAt(af, w, from, cc);
      var rest := PiecesFrom(af, w, x.End(), Next(cc));
      RoutedDead(cap, video, pid, x);
      RestDead(cap, video, pid, af, w, x.End(), Next(cc));
      PiecesCons(cap, video, pid, None, x, rest);
      NothingAdded([]);
    }
  }

  /** What the packets from `from` on give, given what those before left. */
  function After(cap: nat, pid: Pid, x: Piece): (r: seq<Outcome>)
    requires 6 <= x.End() <= |x.whole|
  {
    if Grown(cap, pid, x).0.Some? then Early(cap, pid, x.whole, x.randomAccess) else []
  }

  lemma GrownThenAfter(cap: nat, video: bool, pid: Pid, x: Piece)
    requires 6 <= x.End() <= |x.whole| && Declared(x.whole, video)
    ensures Grown(cap, pid, x).1 + After(cap, pid, x) == Early(cap, pid, x.whole, x.randomAccess)
  {
    NothingAdded(Early(cap, pid, x.whole, x.randomAccess));
    NothingAdded(Grown(cap, pid, x).1);
  }

  /** The rest of a PES packet once its bytes before `from` are in flight. */
  lemma {:induction false} RestGrows(cap: nat, video: bool, pid: Pid, af: Adaptation, w: seq<byte>, from: nat,
                                     cc: Counter)
    requires Declared(w, video) && 6 <= from <= |w| && from <= cap && (TotalOf(w).Some? ==> from < |w|)
    ensures PiecesRan(cap, video, pid, Some(Intact(w, from, af.randomAccess)), PiecesFrom(af, w, from, cc))
         == (Waiting(cap, w, af.randomAccess), Early(cap, pid, w, af.randomAccess))
    decreases |w| - from, 0
  {
    if from < |w| {
      var x := PieceAt(af, w, from, cc);
      RoutedGrows(cap, video, pid, x);
      RestAfter(cap, video, pid, af, x);
      PiecesCons(cap, video, pid, Some(Before(x)), x, PiecesFrom(af, w, x.End(), Next(cc)));
    }
  }

  lemma {:induction false} RestAfter(cap: nat, video: bool, pid: Pid, af: Adaptation, x: Piece)
    requires Declared(x.whole, video) && 6 <= x.End() <= |x.whole| && x.from < x.End() && x.randomAccess == af.randomAccess
    ensures PiecesRan(cap, video, pid, Grown(cap, pid, x).0, PiecesFrom(af, x.whole, x.End(), Next(x.cc)))
         == (Waiting(cap, x.whole, x.randomAccess), After(cap, pid, x))
    ensures Grown(cap, pid, x).1 + After(cap, pid, x) == Early(cap, pid, x.whole, x.randomAccess)
    decreases |x.whole| - x.End(), 1
  {
    GrownThenAfter(cap, video, pid, x);
    if Grown(cap, pid, x).0.Some? {
      RestGrows(cap, video, pid, af, x.whole, x.End(), Next(x.cc));
    } else {
      RestDead(cap, video, pid, af, x.whole, x.End(), Next(x.cc));
    }
  }

  /** The packets of one PES packet close what was in flight, and give it whole or leave it
      waiting whole. */
  lemma WholeRan(cap: nat, video: bool, pid: Pid, part: Option<Partial>, af: Adaptation, w: Scratch, cc: Counter)
    requires Declared(w, video)
    ensures PiecesRan(cap, video, pid, part, PiecesOf(af, w, cc))
         == (Waiting(cap, w, af.randomAccess), Owed(pid, part) + Early(cap, pid, w, af.randomAccess))
  {
    var x := PieceAt(af, w, 0, cc);
    RoutedOpens(cap, video, pid, part, x);
    RestAfter(cap, video, pid, af, x);
    PiecesCons(cap, video, pid, part, x, PiecesFrom(af, w, x.End(), Next(cc)));
    Regroup(Owed(pid, part), Grown(cap, pid, x).1, After(cap, pid, x));
  }
}
