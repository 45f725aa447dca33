/** Loss on the wire, exactly: which PES packets come out unmarked behind gaps that show. */
module TsLossExact {
  import opened Bytes
  import opened TsPacket
  import opened PesPacket
  import opened PesReassembly
  import opened TsDemux
  import opened TsMux
  import opened TsTransport
  import opened TsDelivery
  import opened TsDeliveryLaws
  import opened TsLoss
  import opened TsLossLaws

  // ---- unmarked packets ----------------------------------------------------------------------

  /** The packets handed over with no damage mark right before them. */
  function Unmarked(outs: seq<Outcome>): (r: seq<Pes>) { UnmarkedAfter(false, outs) }

  function UnmarkedAfter(marked: bool, outs: seq<Outcome>): (r: seq<Pes>)
    decreases |outs|
  {
    if outs == [] then []
    else (if outs[0].Complete? && !marked then [outs[0].pes] else []) + UnmarkedAfter(IsMark(outs[0]), outs[1..])
  }

  /** No mark is left without its packet. */
  predicate Paired(outs: seq<Outcome>)
  {
    outs != [] ==> !IsMark(outs[|outs| - 1])
  }

  lemma PairedConcat(a: seq<Outcome>, b: seq<Outcome>)
    requires Paired(a) && Paired(b)
    ensures Paired(a + b)
  {
  }

  lemma AssocPes(a: seq<Pes>, b: seq<Pes>, c: seq<Pes>)
    ensures a + (b + c) == a + b + c && a + [] == a && [] + a == a
  {
  }

  lemma {:induction false} UnmarkedConcat(marked: bool, a: seq<Outcome>, b: seq<Outcome>)
    requires Paired(a) && (a == [] ==> !marked)
    ensures UnmarkedAfter(marked, a + b) == UnmarkedAfter(marked, a) + Unmarked(b)
    decreases |a|
  {
    if a == [] {
      assert a + b == b;
      AssocPes(Unmarked(b), [], []);
    } else {
      assert (a + b)[0] == a[0] && (a + b)[1..] == a[1..] + b;
      UnmarkedConcat(IsMark(a[0]), a[1..], b);
      AssocPes(if a[0].Complete? && !marked then [a[0].pes] else [], UnmarkedAfter(IsMark(a[0]), a[1..]), Unmarked(b));
    }
  }

  lemma UnmarkedOne(o: Outcome)
    ensures Unmarked([o]) == if o.Complete? then [o.pes] else []
  {
    var outs: seq<Outcome> := [o];
    assert outs[1..] == [] && UnmarkedAfter(IsMark(o), []) == [];
    AssocPes(if o.Complete? then [o.pes] else [], [], []);
  }

  /** A mark and its packet. */
  lemma UnmarkedPair(m: Outcome, o: Outcome)
    requires IsMark(m)
    ensures Unmarked([m] + [o]) == []
  {
    var outs, rest: seq<Outcome> := [m] + [o], [o];
    assert outs[1..] == rest && rest[1..] == [];
    assert UnmarkedAfter(true, rest) == [];
  }

  /** What a whole PES packet gives. */
  function Whole(pid: Pid, x: Piece): (r: seq<Pes>)
  {
    match ParsePes(pid, x.whole, x.randomAccess)
    case TooShort => []
    case Bad(_) => []
    case Got(pes) => [pes]
  }

  lemma CleanUnmarked(pid: Pid, x: Piece)
    ensures Paired(Clean(pid, x.whole, x.randomAccess)) && Unmarked(Clean(pid, x.whole, x.randomAccess)) == Whole(pid, x)
  {
    match ParsePes(pid, x.whole, x.randomAccess)
    case TooShort =>
    case Bad(fault) => UnmarkedOne(Malformed(pid, Unparseable(fault)));
    case Got(pes) => UnmarkedOne(Complete(pes));
  }

  lemma DamagedUnmarked(pid: Pid, part: Partial)
    requires part.damage.Some? || (part.total.Some? && |part.buf| < part.total.value)
    ensures Paired(Finished(pid, part)) && Unmarked(Finished(pid, part)) == []
  {
    match ParsePes(pid, part.buf, part.randomAccess)
    case TooShort =>
    case Bad(fault) => UnmarkedOne(Malformed(pid, Unparseable(fault)));
    case Got(pes) =>
      var damage := if part.damage.None? then ShortPes else part.damage.value;
      UnmarkedPair(Malformed(pid, Damaged(damage)), Complete(pes));
  }

  // ---- one arrival ---------------------------------------------------------------------------

  /** The piece ends a PES packet that declares its length. */
  predicate Finishes(x: Piece)
  {
    |x.whole| >= 6 && TotalOf(x.whole).Some? && x.End() == |x.whole|
  }

  /** A packet is in flight, unmarked. */
  predicate Live(part: Option<Partial>)
  {
    part.Some? && part.value.damage.None?
  }

  /** What an arrival gives and leaves: the packet handed over by a start, the packet it
      finishes itself, and whether one is in flight unmarked. */
  predicate Gave(cap: nat, pid: Pid, x: Piece, carried: seq<Pes>, on: bool, r: (Option<Partial>, seq<Outcome>))
  {
    && Paired(r.1)
    && Unmarked(r.1) == carried + (if on && x.End() <= cap && Finishes(x) then Whole(pid, x) else [])
    && (Live(r.0) <==> on && x.End() <= cap && !Finishes(x))
  }

  lemma GrownGave(cap: nat, pid: Pid, x: Piece)
    requires 6 <= x.End() <= |x.whole|
    ensures Gave(cap, pid, x, [], true, Grown(cap, pid, x))
  {
    CleanUnmarked(pid, x);
    AssocPes(Whole(pid, x), [], []);
    UnmarkedOne(Overflow(pid));
  }

  /** What was in flight is handed over by a start: unmarked if it was whole and nothing was
      lost in between. */
  lemma OwedUnmarked(pid: Pid, video: bool, x: Piece, part: Option<Partial>, whole: bool)
    requires Declared(x.whole, video) && Flight(part, x) && (whole ==> x.End() == |x.whole|)
    ensures var owed := Owed(pid, PartMarked(part, if whole then InSequence else Jumped));
            Paired(owed) && Unmarked(owed) == if Live(part) && whole then Whole(pid, x) else []
  {
    if part.Some? {
      if part.value.damage.Some? || !whole {
        DamagedUnmarked(pid, PartMarked(part, if whole then InSequence else Jumped).value);
      } else {
        FinishedIntact(pid, x.whole, x.randomAccess, video);
        CleanUnmarked(pid, x);
      }
    }
  }

  lemma StartGave(cap: nat, video: bool, pid: Pid, part: Option<Partial>, verdict: Verdict, x: Piece, carried: seq<Pes>)
    requires x.Valid() && x.Start() && Declared(x.whole, video)
    requires Paired(Owed(pid, PartMarked(part, verdict))) && Unmarked(Owed(pid, PartMarked(part, verdict))) == carried
    ensures Gave(cap, pid, x, carried, true, PieceRouted(cap, video, pid, part, verdict, x))
  {
    hide PieceRouted, Grown, Owed, PartMarked, Unmarked;
    var owed := Owed(pid, PartMarked(part, verdict));
    StartUnmarked(cap, video, pid, part, verdict, x);
    RoutedOpens(cap, video, pid, PartMarked(part, verdict), x);
    var grown := Grown(cap, pid, x);
    GrownGave(cap, pid, x);
    PairedConcat(owed, grown.1);
    ConcatUnmarked(owed, grown.1);
    AssocPes(if x.End() <= cap && Finishes(x) then Whole(pid, x) else [], [], []);
  }

  lemma ConcatUnmarked(a: seq<Outcome>, b: seq<Outcome>)
    requires Paired(a)
    ensures Unmarked(a + b) == Unmarked(a) + Unmarked(b)
  {
    UnmarkedConcat(false, a, b);
  }

  lemma AddedGave(cap: nat, video: bool, pid: Pid, part: Partial, payload: seq<byte>)
    requires part.damage.Some?
    ensures var (part', outs) := PartAdded(cap, Some(part), pid, payload, video);
            Paired(outs) && Unmarked(outs) == [] && !Live(part')
  {
    match Appended(cap, pid, part, payload, video)
    case Closed(outs) =>
      UnmarkedOne(outs[0]);
    case Kept(more) =>
      if more.total.Some? && |more.buf| >= more.total.value {
        DamagedUnmarked(pid, more.(buf := more.buf[..more.total.value]));
      }
  }

  /** A continuation of a marked packet, or of none. */
  lemma MoreGave(cap: nat, video: bool, pid: Pid, part: Option<Partial>, x: Piece)
    requires x.Valid() && !x.Start() && !Live(part)
    ensures Gave(cap, pid, x, [], false, PieceRouted(cap, video, pid, part, InSequence, x))
  {
    if part.Some? {
      var payload := x.whole[x.from..x.End()];
      AddedGave(cap, video, pid, part.value, payload);
      NothingAdded(PartAdded(cap, part, pid, payload, video).1);
    } else {
      RoutedDead(cap, video, pid, x);
    }
  }

  /** Packet `j` is the one right behind the last to arrive. */
  predicate Behind(prev: Option<nat>, j: nat)
  {
    prev.Some? && j == prev.value + 1
  }

  /** The packet of `j` is unmarked up to there. */
  predicate On(xs: seq<Piece>, prev: Option<nat>, live: bool, j: nat)
    requires j < |xs|
  {
    xs[j].Start() || (live && Behind(prev, j))
  }

  function Carried(pid: Pid, xs: seq<Piece>, prev: Option<nat>, live: bool, j: nat): (r: seq<Pes>)
    requires j < |xs|
  {
    if live && Behind(prev, j) && xs[j].Start() then Whole(pid, xs[prev.value]) else []
  }

  lemma StepGave(cap: nat, video: bool, pid: Pid, part: Option<Partial>, xs: seq<Piece>, prev: Option<nat>, j: nat)
    requires Chained(xs) && AllDeclared(video, xs) && FlightAfter(xs, prev, part) && j < |xs| && (prev.Some? ==> prev.value < j)
    ensures Gave(cap, pid, xs[j], Carried(pid, xs, prev, Live(part), j), On(xs, prev, Live(part), j),
                 PieceRouted(cap, video, pid, part, VerdictAfter(prev, j), xs[j]))
  {
    hide PieceRouted, Gave, Grown;
    var verdict := VerdictAfter(prev, j);
    assert xs[j].Valid() && Declared(xs[j].whole, video);
    if xs[j].Start() {
      StartStep(pid, video, part, xs, prev, j);
      StartGave(cap, video, pid, part, verdict, xs[j], Carried(pid, xs, prev, Live(part), j));
    } else if Live(part) && Behind(prev, j) {
      assert Follows(xs[prev.value], xs[j]);
      RoutedGrows(cap, video, pid, xs[j]);
      GrownGave(cap, pid, xs[j]);
    } else {
      StartUnmarked(cap, video, pid, part, verdict, xs[j]);
      MoreGave(cap, video, pid, PartMarked(part, verdict), xs[j]);
    }
  }

  lemma StartStep(pid: Pid, video: bool, part: Option<Partial>, xs: seq<Piece>, prev: Option<nat>, j: nat)
    requires Chained(xs) && AllDeclared(video, xs) && FlightAfter(xs, prev, part)
    requires j < |xs| && (prev.Some? ==> prev.value < j) && xs[j].Start()
    ensures var owed := Owed(pid, PartMarked(part, VerdictAfter(prev, j)));
            Paired(owed) && Unmarked(owed) == Carried(pid, xs, prev, Live(part), j)
  {
    if prev.Some? {
      var i := prev.value;
      if j == i + 1 { assert Follows(xs[i], xs[j]); }
      OwedUnmarked(pid, video, xs[i], part, j == i + 1);
    }
  }

  // ---- all arrivals ----------------------------------------------------------------------------

  /** What comes out unmarked of the arrivals `kept`, then of a flush. */
  function Expected(cap: nat, pid: Pid, xs: seq<Piece>, prev: Option<nat>, live: bool, kept: seq<nat>): (r: seq<Pes>)
    decreases |kept|
  {
    if kept == [] || kept[0] >= |xs| then
      if live && prev.Some? && prev.value < |xs| && xs[prev.value].End() == |xs[prev.value].whole| then Whole(pid, xs[prev.value])
      else []
    else
      var j := kept[0];
      var on := On(xs, prev, live, j) && xs[j].End() <= cap;
      Carried(pid, xs, prev, live, j) + (if on && Finishes(xs[j]) then Whole(pid, xs[j]) else [])
      + Expected(cap, pid, xs, Some(j), on && !Finishes(xs[j]), kept[1..])
  }

  /** The outcomes of the arrivals, then of a flush. */
  function Flushed(cap: nat, video: bool, pid: Pid, part: Option<Partial>, xs: seq<Piece>, prev: Option<nat>,
                   kept: seq<nat>)
    : (r: seq<Outcome>)
  {
    var (part', outs) := LossyRan(cap, video, pid, part, xs, prev, kept);
    outs + Owed(pid, part')
  }

  lemma FlushGave(cap: nat, video: bool, pid: Pid, part: Option<Partial>, xs: seq<Piece>, prev: Option<nat>)
    requires AllDeclared(video, xs) && FlightAfter(xs, prev, part) && EndsClosed(xs, prev)
    ensures Unmarked(Owed(pid, part)) == Expected(cap, pid, xs, prev, Live(part), [])
  {
    if prev.Some? {
      var x := xs[prev.value];
      if x.End() == |x.whole| {
        OwedUnmarked(pid, video, x, part, true);
      } else if part.Some? {
        DamagedUnmarked(pid, part.value);
      }
    }
  }

  lemma FlushedStep(cap: nat, video: bool, pid: Pid, part: Option<Partial>, xs: seq<Piece>, prev: Option<nat>,
                    kept: seq<nat>)
    requires kept != [] && kept[0] < |xs|
    ensures var (part1, outs1) := PieceRouted(cap, video, pid, part, VerdictAfter(prev, kept[0]), xs[kept[0]]);
            Flushed(cap, video, pid, part, xs, prev, kept)
            == outs1 + Flushed(cap, video, pid, part1, xs, Some(kept[0]), kept[1..])
  {
    hide PieceRouted;
    var (part1, outs1) := PieceRouted(cap, video, pid, part, VerdictAfter(prev, kept[0]), xs[kept[0]]);
    var (part2, outs2) := LossyRan(cap, video, pid, part1, xs, Some(kept[0]), kept[1..]);
    Regroup(outs1, outs2, Owed(pid, part2));
  }

  lemma {:induction false} FlushedExpected(cap: nat, video: bool, pid: Pid, part: Option<Partial>, xs: seq<Piece>,
                                           prev: Option<nat>, kept: seq<nat>)
    requires Chained(xs) && AllDeclared(video, xs) && Arrives(pid, xs, prev, kept) && FlightAfter(xs, prev, part)
    requires EndsClosed(xs, LastOf(prev, kept))
    ensures Unmarked(Flushed(cap, video, pid, part, xs, prev, kept)) == Expected(cap, pid, xs, prev, Live(part), kept)
    decreases |kept|
  {
    hide PieceRouted, Unmarked, Owed, Shows, Whole, Flight, Carried;
    if kept == [] {
      FlushGave(cap, video, pid, part, xs, prev);
      NothingAdded(Owed(pid, part));
    } else {
      var j := kept[0];
      ArrivesNext(pid, xs, prev, kept);
      StepFine(cap, video, pid, part, xs, prev, j);
      StepGave(cap, video, pid, part, xs, prev, j);
      var r := PieceRouted(cap, video, pid, part, VerdictAfter(prev, j), xs[j]);
      FlushedExpected(cap, video, pid, r.0, xs, Some(j), kept[1..]);
      FlushedStep(cap, video, pid, part, xs, prev, kept);
      ConcatUnmarked(r.1, Flushed(cap, video, pid, r.0, xs, Some(j), kept[1..]));
    }
  }

  // ---- which packets those are -----------------------------------------------------------------

  /** Where the PES packet of packet `e` starts in the stream. */
  function First(xs: seq<Piece>, e: nat): (s: nat)
    requires e < |xs|
    ensures s <= e
  {
    if e == 0 || xs[e].Start() then e else First(xs, e - 1)
  }

  /** Every packet of that PES packet up to `e` arrives. */
  predicate Arrived(xs: seq<Piece>, kept: seq<nat>, e: nat)
    requires e < |xs|
  {
    forall k | First(xs, e) <= k <= e :: k in kept
  }

  predicate Ends(x: Piece) { x.End() == |x.whole| }

  /** Packet `e` ends a PES packet within the cap, all of whose packets arrive; and so does the
      packet behind it, unless the PES packet declares its length or nothing arrives later. */
  predicate Handed(cap: nat, xs: seq<Piece>, kept: seq<nat>, e: nat)
    requires e < |xs|
  {
    && Ends(xs[e]) && xs[e].End() <= cap && Arrived(xs, kept, e)
    && (Finishes(xs[e]) || e + 1 in kept || forall k | k in kept :: k <= e)
  }

  function HandedAt(cap: nat, pid: Pid, xs: seq<Piece>, kept: seq<nat>, e: nat): (r: seq<Pes>)
    requires e < |xs|
  {
    if Handed(cap, xs, kept, e) then Whole(pid, xs[e]) else []
  }

  /** The PES packets so handed over, in the order they were sent. */
  function HandedFrom(cap: nat, pid: Pid, xs: seq<Piece>, kept: seq<nat>, e: nat): (r: seq<Pes>)
    decreases |xs| - e
  {
    if e >= |xs| then [] else HandedAt(cap, pid, xs, kept, e) + HandedFrom(cap, pid, xs, kept, e + 1)
  }

  lemma LostEndsNothing(cap: nat, pid: Pid, xs: seq<Piece>, kept: seq<nat>, e: nat)
    requires e < |xs| && e !in kept
    ensures HandedAt(cap, pid, xs, kept, e) == []
  {
    hide Finishes, Whole;
    assert First(xs, e) <= e <= e;
  }

  /** Packets that did not arrive end nothing. */
  lemma {:induction false} SkipLost(cap: nat, pid: Pid, xs: seq<Piece>, kept: seq<nat>, a: nat, b: nat)
    requires a <= b <= |xs| && forall e | a <= e < b :: e !in kept
    ensures HandedFrom(cap, pid, xs, kept, a) == HandedFrom(cap, pid, xs, kept, b)
    decreases b - a
  {
    hide HandedAt;
    if a < b {
      SkipLost(cap, pid, xs, kept, a + 1, b);
      LostEndsNothing(cap, pid, xs, kept, a);
      AssocPes(HandedFrom(cap, pid, xs, kept, a + 1), [], []);
    }
  }

  predicate Rising(xs: seq<Piece>, kept: seq<nat>)
  {
    (forall a, b | 0 <= a < b < |kept| :: kept[a] < kept[b]) && forall a | 0 <= a < |kept| :: kept[a] < |xs|
  }

  lemma {:induction false} ArrivesRising(pid: Pid, xs: seq<Piece>, prev: Option<nat>, kept: seq<nat>)
    requires Arrives(pid, xs, prev, kept)
    ensures Rising(xs, kept) && (prev.Some? ==> forall a | 0 <= a < |kept| :: prev.value < kept[a])
    decreases |kept|
  {
    hide Shows;
    if kept != [] {
      ArrivesNext(pid, xs, prev, kept);
      var j, rest := kept[0], kept[1..];
      ArrivesRising(pid, xs, Some(j), rest);
      assert forall a | 0 < a < |kept| :: kept[a] == rest[a - 1];
    }
  }

  /** Between two arrivals nothing arrives. */
  lemma Gap(xs: seq<Piece>, kept: seq<nat>, m: nat, e: nat)
    requires Rising(xs, kept) && m <= |kept| && (m > 0 ==> kept[m - 1] < e) && (m < |kept| ==> e < kept[m])
    ensures e !in kept
  {
    forall a | 0 <= a < |kept| ensures kept[a] != e {
      assert a < m ==> a == m - 1 || kept[a] < kept[m - 1];
      assert a > m ==> kept[m] < kept[a];
    }
  }

  function PrevAt(kept: seq<nat>, m: nat): (r: Option<nat>)
    requires m <= |kept|
  {
    if m == 0 then None else Some(kept[m - 1])
  }

  /** A packet is in flight, unmarked, once `m` packets have arrived. */
  predicate LiveAt(cap: nat, xs: seq<Piece>, kept: seq<nat>, m: nat)
    requires Rising(xs, kept) && m <= |kept|
  {
    m > 0 && Arrived(xs, kept, kept[m - 1]) && xs[kept[m - 1]].End() <= cap && !Finishes(xs[kept[m - 1]])
  }

  /** The first end that is still to be decided. */
  function Undecided(cap: nat, xs: seq<Piece>, kept: seq<nat>, m: nat): (e: nat)
    requires Rising(xs, kept) && m <= |kept|
  {
    if m == 0 then 0
    else if LiveAt(cap, xs, kept, m) && Ends(xs[kept[m - 1]]) then kept[m - 1]
    else kept[m - 1] + 1
  }

  /** A stream of whole PES packets. */
  predicate Streamed(xs: seq<Piece>)
  {
    Chained(xs) && (xs != [] ==> xs[0].Start())
  }

  lemma StartsBehindEnd(xs: seq<Piece>, i: nat)
    requires Streamed(xs) && i + 1 < |xs|
    ensures xs[i + 1].Start() <==> Ends(xs[i])
    ensures !xs[i + 1].Start() ==> xs[i].End() < xs[i + 1].End()
  {
    assert Follows(xs[i], xs[i + 1]) && xs[i + 1].Valid();
  }

  /** The wait of an unbounded packet is over at the next arrival. */
  lemma CarriedHanded(cap: nat, pid: Pid, xs: seq<Piece>, kept: seq<nat>, m: nat)
    requires Streamed(xs) && Rising(xs, kept) && m < |kept|
    ensures HandedFrom(cap, pid, xs, kept, Undecided(cap, xs, kept, m))
         == Carried(pid, xs, PrevAt(kept, m), LiveAt(cap, xs, kept, m), kept[m]) + HandedFrom(cap, pid, xs, kept, kept[m])
  {
    hide Arrived, Finishes, Whole, First;
    var j, lo := kept[m], Undecided(cap, xs, kept, m);
    var from := if m == 0 then 0 else kept[m - 1] + 1;
    assert m > 0 ==> kept[m - 1] < kept[m];
    forall e | from <= e < j ensures e !in kept { Gap(xs, kept, m, e); }
    SkipLost(cap, pid, xs, kept, from, j);
    AssocPes(HandedFrom(cap, pid, xs, kept, j), [], []);
    if m > 0 {
      var p := kept[m - 1];
      if j == p + 1 { StartsBehindEnd(xs, p); }
      if lo == p {
        assert kept[m] in kept && (p + 1 in kept <==> j == p + 1);
        assert HandedFrom(cap, pid, xs, kept, p) == HandedAt(cap, pid, xs, kept, p) + HandedFrom(cap, pid, xs, kept, p + 1);
      }
    }
  }

  /** Unmarked up to `j` means that all of it arrived. */
  lemma OnArrived(cap: nat, xs: seq<Piece>, kept: seq<nat>, m: nat)
    requires Streamed(xs) && Rising(xs, kept) && m < |kept|
    ensures var j := kept[m];
            On(xs, PrevAt(kept, m), LiveAt(cap, xs, kept, m), j) && xs[j].End() <= cap
            <==> Arrived(xs, kept, j) && xs[j].End() <= cap
  {
    var j := kept[m];
    assert j in kept;
    if !xs[j].Start() {
      ArrivedStep(xs, kept, j);
      StartsBehindEnd(xs, j - 1);
      if m > 0 && kept[m - 1] == j - 1 {
        assert !Ends(xs[j - 1]);
      } else {
        assert m > 0 ==> kept[m - 1] < kept[m];
        Gap(xs, kept, m, j - 1);
        assert !Arrived(xs, kept, j - 1);
      }
    }
  }

  lemma ArrivedStep(xs: seq<Piece>, kept: seq<nat>, j: nat)
    requires Streamed(xs) && j < |xs| && !xs[j].Start() && j in kept
    ensures j > 0 && (Arrived(xs, kept, j) <==> Arrived(xs, kept, j - 1))
  {
    assert First(xs, j) == First(xs, j - 1);
  }

  /** The arrival itself. */
  lemma ArrivalHanded(cap: nat, pid: Pid, xs: seq<Piece>, kept: seq<nat>, m: nat)
    requires Streamed(xs) && Rising(xs, kept) && m < |kept|
    ensures var j := kept[m];
            HandedFrom(cap, pid, xs, kept, j)
            == (if Arrived(xs, kept, j) && xs[j].End() <= cap && Finishes(xs[j]) then Whole(pid, xs[j]) else [])
               + HandedFrom(cap, pid, xs, kept, Undecided(cap, xs, kept, m + 1))
  {
    hide Arrived, Whole, First;
    var j := kept[m];
    AssocPes(HandedFrom(cap, pid, xs, kept, j), [], []);
    AssocPes(HandedFrom(cap, pid, xs, kept, j + 1), [], []);
  }

  lemma {:induction false} ExpectedHanded(cap: nat, pid: Pid, xs: seq<Piece>, kept: seq<nat>, m: nat)
    requires Streamed(xs) && Rising(xs, kept) && m <= |kept|
    ensures Expected(cap, pid, xs, PrevAt(kept, m), LiveAt(cap, xs, kept, m), kept[m..])
         == HandedFrom(cap, pid, xs, kept, Undecided(cap, xs, kept, m))
    decreases |kept| - m
  {
    hide Arrived, Finishes, Whole, First, On, Carried, HandedFrom, Undecided;
    if m == |kept| {
      NothingLater(cap, pid, xs, kept);
    } else {
      var j := kept[m];
      ExpectedHanded(cap, pid, xs, kept, m + 1);
      assert kept[m..][0] == j && kept[m..][1..] == kept[m + 1..];
      CarriedHanded(cap, pid, xs, kept, m);
      OnArrived(cap, xs, kept, m);
      ArrivalHanded(cap, pid, xs, kept, m);
      AssocPes(Carried(pid, xs, PrevAt(kept, m), LiveAt(cap, xs, kept, m), j),
               if Arrived(xs, kept, j) && xs[j].End() <= cap && Finishes(xs[j]) then Whole(pid, xs[j]) else [],
               HandedFrom(cap, pid, xs, kept, Undecided(cap, xs, kept, m + 1)));
    }
  }

  lemma LastIsLast(xs: seq<Piece>, kept: seq<nat>)
    requires Rising(xs, kept) && kept != []
    ensures forall k | k in kept :: k <= kept[|kept| - 1]
  {
    forall k | k in kept ensures k <= kept[|kept| - 1] {
      var a :| 0 <= a < |kept| && kept[a] == k;
      assert a == |kept| - 1 || kept[a] < kept[|kept| - 1];
    }
  }

  lemma NoMore(cap: nat, pid: Pid, xs: seq<Piece>, kept: seq<nat>)
    requires Rising(xs, kept)
    ensures HandedFrom(cap, pid, xs, kept, if kept == [] then 0 else kept[|kept| - 1] + 1) == []
  {
    hide HandedAt;
    var from := if kept == [] then 0 else kept[|kept| - 1] + 1;
    forall e | from <= e < |xs| ensures e !in kept { Gap(xs, kept, |kept|, e); }
    SkipLost(cap, pid, xs, kept, from, |xs|);
  }

  lemma LastHanded(cap: nat, pid: Pid, xs: seq<Piece>, kept: seq<nat>)
    requires Rising(xs, kept) && kept != []
    ensures var p := kept[|kept| - 1];
            HandedFrom(cap, pid, xs, kept, p)
            == if Ends(xs[p]) && xs[p].End() <= cap && Arrived(xs, kept, p) then Whole(pid, xs[p]) else []
  {
    hide Arrived, Finishes, Whole, First;
    var p := kept[|kept| - 1];
    LastIsLast(xs, kept);
    NoMore(cap, pid, xs, kept);
    AssocPes(HandedAt(cap, pid, xs, kept, p), [], []);
  }

  lemma NothingLater(cap: nat, pid: Pid, xs: seq<Piece>, kept: seq<nat>)
    requires Streamed(xs) && Rising(xs, kept)
    ensures Expected(cap, pid, xs, PrevAt(kept, |kept|), LiveAt(cap, xs, kept, |kept|), [])
         == HandedFrom(cap, pid, xs, kept, Undecided(cap, xs, kept, |kept|))
  {
    hide Arrived, Finishes, Whole, First, HandedFrom;
    NoMore(cap, pid, xs, kept);
    if kept != [] { LastHanded(cap, pid, xs, kept); }
  }

  /** The other half of no silent corruption. Over the same runs and losses, with the flush,
      what comes out unmarked on the PID is exactly the PES packets all of whose packets
      arrived: each once, whole and in the order sent. One that declares no length is unmarked
      only if the packet behind it arrived too or nothing did. */
  lemma LossExact(caps: Caps, streams: Streams, pid: Pid, c: Counters, ops: seq<Op>, ts: seq<seq<byte>>, kept: seq<nat>)
    requires pid in streams && pid != NULL_PID && SendsDeclared(pid, streams[pid], ops)
    requires Arrives(pid, StreamOn(pid, ops, c[pid]), None, kept) && EndsWell(StreamOn(pid, ops, c[pid]), kept)
    requires LiveOn(pid, ts) == Raws(pid, Picked(StreamOn(pid, ops, c[pid]), kept))
    requires NoTotal(Ran(caps, streams, IDLE, ts).1)
    ensures Unmarked(OutcomesOn(pid, RanAndFlushed(caps, streams, ts)))
         == HandedFrom(caps.perPid, pid, StreamOn(pid, ops, c[pid]), kept, 0)
  {
    hide LossyRan, Raws, StreamOn, PidRan, Ran, OutcomesOn, RanAndFlushed, Arrives, Picked, Unmarked, HandedFrom,
         Expected;
    var xs, video := StreamOn(pid, ops, c[pid]), streams[pid];
    RunLocal(caps, streams, IDLE, ts, pid);
    StreamChained(pid, ops, c[pid]);
    StreamDeclared(pid, video, ops, c[pid]);
    LossyRuns(caps.perPid, video, pid, ViewOf(IDLE, pid), xs, None, kept);
    FlushedOn(caps, streams, ts, pid);
    FlushedExpected(caps.perPid, video, pid, None, xs, None, kept);
    ArrivesRising(pid, xs, None, kept);
    ExpectedHanded(caps.perPid, pid, xs, kept, 0);
    assert kept[0..] == kept;
  }
}
