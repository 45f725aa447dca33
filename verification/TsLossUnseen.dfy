/** The gaps the continuity counter does not show, over whole runs: what is in flight when one
    falls is filled up with the bytes behind it. */
module TsLossUnseen {
  import opened Bytes
  import opened TsPacket
  import opened PesPacket
  import opened PesReassembly
  import opened TsDemux
  import opened TsMux
  import opened TsTransport
  import opened TsDelivery
  import opened TsDeliveryLaws
  import opened TsLoss
  import opened TsLossLaws
  import opened TsLossExact

  // ---- the packet in flight, filled up -----------------------------------------------------

  /** At most as many bytes as the packet declares. */
  function Cut(part: Partial, s: seq<byte>): (r: Partial)
  {
    var buf := part.buf + s;
    part.(buf := if part.total.Some? && |buf| >= part.total.value then buf[..part.total.value] else buf)
  }

  /** `w` up to `a`, with `s` where its own bytes should follow. */
  function Mixed(w: seq<byte>, a: nat, s: seq<byte>, ra: bool): (r: Partial)
    requires 6 <= a <= |w|
  {
    Cut(Intact(w, a, ra), s)
  }

  /** Unmarked, its header read, and not yet as long as it declares. */
  predicate Filling(part: Partial, video: bool)
  {
    && part.damage.None? && |part.buf| >= 6
    && if part.total.Some? then |part.buf| < part.total.value else video && LengthField(part.buf) == 0
  }

  lemma Assoc(a: seq<byte>, b: seq<byte>, c: seq<byte>)
    ensures a + (b + c) == a + b + c
  {
  }

  /** Cutting off after each piece or at the end comes to the same. */
  lemma CutMore(part: Partial, s: seq<byte>, t: seq<byte>)
    requires part.total.None? || |part.buf + s| < part.total.value
    ensures Cut(part.(buf := part.buf + s), t) == Cut(part, s + t)
  {
    Assoc(part.buf, s, t);
  }

  lemma CutEarly(part: Partial, s: seq<byte>, t: seq<byte>)
    requires part.total.Some? && |part.buf + s| >= part.total.value
    ensures Cut(part, s + t) == Cut(part, s)
  {
    Assoc(part.buf, s, t);
    var buf, n := part.buf + s, part.total.value;
    assert (buf + t)[..n] == buf[..n];
  }

  /** One continuation: appended, or it completes the packet. */
  lemma TakesOne(cap: nat, video: bool, pid: Pid, part: Partial, z: Piece)
    requires Filling(part, video) && !z.Start() && |part.buf| + |Payload(z)| <= cap
    ensures var more := part.(buf := part.buf + Payload(z));
            PieceRouted(cap, video, pid, Some(part), InSequence, z)
            == if part.total.Some? && |more.buf| >= part.total.value then (None, Finished(pid, Cut(part, Payload(z))))
               else (Some(more), [])
    ensures (part.total.Some? && |part.buf + Payload(z)| >= part.total.value)
         || Filling(part.(buf := part.buf + Payload(z)), video)
  {
    hide Payload;
    var buf := part.buf + Payload(z);
    assert buf[4] == part.buf[4] && buf[5] == part.buf[5];
    NothingAdded(Finished(pid, Cut(part, Payload(z))));
    NothingAdded([]);
  }

  lemma SliceOn(w: seq<byte>, a: nat, b: nat)
    requires a <= b <= |w|
    ensures w[a..b] + w[b..] == w[a..]
  {
  }

  lemma CutNothing(pid: Pid, part: Partial, video: bool)
    requires Filling(part, video)
    ensures Finished(pid, Cut(part, [])) == Finished(pid, part)
  {
    assert part.buf + [] == part.buf;
  }

  /** The rest of any PES packet behind it fills the packet in flight, and no more. */
  lemma {:induction false} TakesRest(cap: nat, video: bool, pid: Pid, part: Partial, af: Adaptation, w: seq<byte>,
                                     from: nat, cc: Counter)
    requires Filling(part, video) && 0 < from <= |w| && |part.buf| + (|w| - from) <= cap
    ensures var (part', outs) := PiecesRan(cap, video, pid, Some(part), PiecesFrom(af, w, from, cc));
            outs + Owed(pid, part') == Finished(pid, Cut(part, w[from..]))
    decreases |w| - from
  {
    hide PieceRouted, Finished, Cut;
    if from == |w| {
      assert w[from..] == [];
      CutNothing(pid, part, video);
      NothingAdded(Finished(pid, part));
    } else {
      var x := PieceAt(af, w, from, cc);
      var rest := PiecesFrom(af, w, x.End(), Next(cc));
      TakesOne(cap, video, pid, part, x);
      PiecesCons(cap, video, pid, Some(part), x, rest);
      SliceOn(w, from, x.End());
      var more := part.(buf := part.buf + Payload(x));
      if part.total.Some? && |more.buf| >= part.total.value {
        RestDead(cap, video, pid, af, w, x.End(), Next(cc));
        CutEarly(part, Payload(x), w[x.End()..]);
        NothingAdded(Finished(pid, Cut(part, Payload(x))));
      } else {
        TakesRest(cap, video, pid, more, af, w, x.End(), Next(cc));
        CutMore(part, Payload(x), w[x.End()..]);
        NothingAdded(PiecesRan(cap, video, pid, Some(more), rest).1);
      }
    }
  }

  // ---- the packets of one PES packet ---------------------------------------------------------

  /** Every piece is one of `w`, and only the first starts it. */
  predicate Covers(w: seq<byte>, ra: bool, xs: seq<Piece>)
  {
    && Chained(xs)
    && forall k | 0 <= k < |xs| :: xs[k].whole == w && xs[k].randomAccess == ra && (xs[k].Start() <==> k == 0)
  }

  lemma {:induction false} PiecesWithin(af: Adaptation, w: seq<byte>, from: nat, cc: Counter)
    requires from <= |w|
    ensures forall x | x in PiecesFrom(af, w, from, cc) :: x.whole == w && x.randomAccess == af.randomAccess && x.from >= from
    decreases |w| - from
  {
    if from < |w| {
      var x := PieceAt(af, w, from, cc);
      PiecesWithin(af, w, x.End(), Next(cc));
    }
  }

  lemma PiecesCover(af: Adaptation, w: Scratch, cc: Counter)
    ensures Covers(w, af.randomAccess, PiecesOf(af, w, cc))
  {
    var x := PieceAt(af, w, 0, cc);
    var rest := PiecesFrom(af, w, x.End(), Next(cc));
    PiecesOfShape(af, w, cc);
    PiecesWithin(af, w, x.End(), Next(cc));
    var xs := PiecesOf(af, w, cc);
    assert xs == [x] + rest;
    forall k | 0 <= k < |xs| ensures xs[k].whole == w && xs[k].randomAccess == af.randomAccess && (xs[k].Start() <==> k == 0) {
      if k > 0 { assert xs[k] == rest[k - 1] && rest[k - 1] in rest; }
    }
  }

  lemma PieceInside(xs: seq<Piece>, w: seq<byte>, ra: bool, k: nat)
    requires Covers(w, ra, xs) && k < |xs|
    ensures xs[k].from < xs[k].End() <= |w| && Payload(xs[k]) == w[xs[k].from..xs[k].End()]
    ensures k > 0 ==> xs[k].from == xs[k - 1].End()
  {
    assert xs[k].Valid();
    if k > 0 { assert Follows(xs[k - 1], xs[k]); }
  }

  /** They lie one behind the other. */
  lemma {:induction false} PieceOrder(xs: seq<Piece>, w: seq<byte>, ra: bool, p: nat, q: nat)
    requires Covers(w, ra, xs) && p < q < |xs|
    ensures xs[p].End() <= xs[q].from && (p + 1 < q ==> xs[p].End() < xs[q].from)
    decreases q - p
  {
    PieceInside(xs, w, ra, q);
    if p + 1 < q {
      PieceOrder(xs, w, ra, p, q - 1);
      PieceInside(xs, w, ra, q - 1);
    }
  }

  lemma {:induction false} PiecesSuffix(af: Adaptation, w: seq<byte>, from: nat, cc: Counter, q: nat)
    requires from <= |w| && q < |PiecesFrom(af, w, from, cc)|
    ensures var xs := PiecesFrom(af, w, from, cc);
            xs[q].from <= |w| && xs[q..] == PiecesFrom(af, w, xs[q].from, xs[q].cc)
    decreases q
  {
    if q > 0 {
      var x := PieceAt(af, w, from, cc);
      var xs, rest := PiecesFrom(af, w, from, cc), PiecesFrom(af, w, x.End(), Next(cc));
      assert xs[q..] == rest[q - 1..] && xs[q] == rest[q - 1];
      PiecesSuffix(af, w, x.End(), Next(cc), q - 1);
    }
  }

  /** The first packets of a PES packet close what was in flight and leave it grown so far. */
  lemma {:induction false} HeadGrown(cap: nat, video: bool, pid: Pid, part: Option<Partial>, xs: seq<Piece>,
                                     w: seq<byte>, ra: bool, q: nat)
    requires Covers(w, ra, xs) && q < |xs| && Declared(w, video) && xs[q].End() <= cap
    ensures 6 <= xs[q].End() <= |w|
    ensures PiecesRan(cap, video, pid, part, xs[..q + 1])
         == (Grown(cap, pid, xs[q]).0, Owed(pid, part) + Grown(cap, pid, xs[q]).1)
  {
    hide PieceRouted;
    PieceInside(xs, w, ra, q);
    PiecesRanConcat(cap, video, pid, part, xs[..q], [xs[q]]);
    assert xs[..q + 1] == xs[..q] + [xs[q]];
    if q == 0 {
      RoutedOpens(cap, video, pid, part, xs[0]);
      OnePiece(cap, video, pid, part, xs[0]);
      NothingAdded(Owed(pid, part) + Grown(cap, pid, xs[0]).1);
    } else {
      HeadGrown(cap, video, pid, part, xs, w, ra, q - 1);
      RoutedGrows(cap, video, pid, xs[q]);
      OnePiece(cap, video, pid, Some(Before(xs[q])), xs[q]);
      NothingAdded(Owed(pid, part));
    }
  }

  lemma OnePiece(cap: nat, video: bool, pid: Pid, part: Option<Partial>, x: Piece)
    ensures PiecesRan(cap, video, pid, part, [x]) == PieceRouted(cap, video, pid, part, InSequence, x)
  {
    hide PieceRouted;
    PiecesCons(cap, video, pid, part, x, []);
    assert [x] + [] == [x];
    NothingAdded(PieceRouted(cap, video, pid, part, InSequence, x).1);
  }

  // ---- what was in flight and what follows --------------------------------------------------

  lemma GrownFilling(cap: nat, video: bool, pid: Pid, x: Piece)
    requires 6 <= x.End() <= |x.whole| && x.End() <= cap && Declared(x.whole, video) && Grown(cap, pid, x).0.Some?
    ensures var part := Intact(x.whole, x.End(), x.randomAccess);
            Filling(part, video) && Grown(cap, pid, x) == (Some(part), [])
  {
  }

  lemma CompleteMixed(cap: nat, video: bool, pid: Pid, x: Piece, s: seq<byte>)
    requires 6 <= x.End() <= |x.whole| && x.End() <= cap && Declared(x.whole, video) && Grown(cap, pid, x).0.None?
    ensures Grown(cap, pid, x).1 == Finished(pid, Mixed(x.whole, x.End(), s, x.randomAccess))
  {
    var w := x.whole;
    FinishedIntact(pid, w, x.randomAccess, video);
    assert w[..|w|] == w && (w + s)[..|w|] == w;
  }

  /** Packet `x` arrived, then the rest of another PES packet, or nothing (`from == |w|`). */
  lemma GrownThenRest(cap: nat, video: bool, pid: Pid, x: Piece, af: Adaptation, w: seq<byte>, from: nat, cc: Counter)
    requires 6 <= x.End() <= |x.whole| && Declared(x.whole, video)
    requires 0 < from <= |w| && x.End() + (|w| - from) <= cap
    ensures var (part', outs) := PiecesRan(cap, video, pid, Grown(cap, pid, x).0, PiecesFrom(af, w, from, cc));
            Grown(cap, pid, x).1 + outs + Owed(pid, part') == Finished(pid, Mixed(x.whole, x.End(), w[from..], x.randomAccess))
  {
    hide PieceRouted, Finished, Cut;
    if Grown(cap, pid, x).0.Some? {
      GrownFilling(cap, video, pid, x);
      TakesRest(cap, video, pid, Intact(x.whole, x.End(), x.randomAccess), af, w, from, cc);
      NothingAdded(PiecesRan(cap, video, pid, Grown(cap, pid, x).0, PiecesFrom(af, w, from, cc)).1);
    } else {
      CompleteMixed(cap, video, pid, x, w[from..]);
      RestDead(cap, video, pid, af, w, from, cc);
      NothingAdded(Grown(cap, pid, x).1);
    }
  }

  // ---- where a packet lies in the run ----------------------------------------------------------

  function CounterAll(pid: Pid, ops: seq<Op>, cc: Counter): (r: Counter)
    decreases |ops|
  {
    if ops == [] then cc else CounterAll(pid, ops[1..], CounterAfter(pid, cc, ops[0]))
  }

  lemma AssocPieces(a: seq<Piece>, b: seq<Piece>, c: seq<Piece>)
    ensures a + (b + c) == a + b + c && [] + a == a && a + [] == a
  {
  }

  lemma {:induction false} StreamSplit(pid: Pid, ops: seq<Op>, cc: Counter, k: nat)
    requires k <= |ops|
    ensures StreamOn(pid, ops, cc) == StreamOn(pid, ops[..k], cc) + StreamOn(pid, ops[k..], CounterAll(pid, ops[..k], cc))
    decreases k
  {
    if k == 0 {
      assert ops[0..] == ops && ops[..0] == [];
      AssocPieces(StreamOn(pid, ops, cc), [], []);
    } else {
      var next := CounterAfter(pid, cc, ops[0]);
      StreamSplit(pid, ops[1..], next, k - 1);
      assert ops[1..][..k - 1] == ops[..k][1..] && ops[1..][k - 1..] == ops[k..] && ops[..k][0] == ops[0];
      AssocPieces(AddsTo(pid, cc, ops[0]), StreamOn(pid, ops[..k][1..], next),
                  StreamOn(pid, ops[k..], CounterAll(pid, ops[..k], cc)));
    }
  }

  /** The operation whose PES packet carries packet `i` of the stream. */
  function OpAt(pid: Pid, ops: seq<Op>, cc: Counter, i: nat): (k: nat)
    requires i < |StreamOn(pid, ops, cc)|
    ensures k < |ops|
    decreases |ops|
  {
    var n := |AddsTo(pid, cc, ops[0])|;
    if i < n then 0 else 1 + OpAt(pid, ops[1..], CounterAfter(pid, cc, ops[0]), i - n)
  }

  /** The counter its operation starts with. */
  function CounterOf(pid: Pid, ops: seq<Op>, cc: Counter, k: nat): (r: Counter)
    requires k <= |ops|
  {
    CounterAll(pid, ops[..k], cc)
  }

  /** How far into that PES packet. */
  lemma {:induction false} OpAtBounds(pid: Pid, ops: seq<Op>, cc: Counter, i: nat)
    requires i < |StreamOn(pid, ops, cc)|
    ensures var k := OpAt(pid, ops, cc, i);
            var before := |StreamOn(pid, ops[..k], cc)|;
            before <= i < before + |AddsTo(pid, CounterOf(pid, ops, cc, k), ops[k])|
    decreases |ops|
  {
    var n, next := |AddsTo(pid, cc, ops[0])|, CounterAfter(pid, cc, ops[0]);
    if i < n {
      assert ops[..0] == [];
    } else {
      OpAtBounds(pid, ops[1..], next, i - n);
      var k := OpAt(pid, ops, cc, i);
      assert ops[..k][0] == ops[0] && ops[..k][1..] == ops[1..][..k - 1];
    }
  }

  /** Packet `i` of the stream is packet `q` of the PES packet sent by operation `k`. */
  ghost predicate Sits(pid: Pid, ops: seq<Op>, cc: Counter, i: nat, k: nat, q: nat)
  {
    && k < |ops| && ops[k].Send? && ops[k].pid == pid
    && var c1 := CounterOf(pid, ops, cc, k);
    && var own := PiecesOf(ops[k].af, ops[k].whole, c1);
    && q < |own| && i == |StreamOn(pid, ops[..k], cc)| + q
    && StreamOn(pid, ops, cc) == StreamOn(pid, ops[..k], cc) + own + StreamOn(pid, ops[k + 1..], CounterAfter(pid, c1, ops[k]))
    && StreamOn(pid, ops[k..], c1) == own + StreamOn(pid, ops[k + 1..], CounterAfter(pid, c1, ops[k]))
  }

  lemma Located(pid: Pid, ops: seq<Op>, cc: Counter, i: nat) returns (q: nat)
    requires i < |StreamOn(pid, ops, cc)|
    ensures Sits(pid, ops, cc, i, OpAt(pid, ops, cc, i), q)
  {
    var k := OpAt(pid, ops, cc, i);
    var c1 := CounterOf(pid, ops, cc, k);
    OpAtBounds(pid, ops, cc, i);
    StreamSplit(pid, ops, cc, k);
    assert ops[k..][0] == ops[k] && ops[k..][1..] == ops[k + 1..];
    AssocPieces(StreamOn(pid, ops[..k], cc), AddsTo(pid, c1, ops[k]),
                StreamOn(pid, ops[k + 1..], CounterAfter(pid, c1, ops[k])));
    q := i - |StreamOn(pid, ops[..k], cc)|;
  }

  lemma ThreeParts(a: seq<Piece>, b: seq<Piece>, c: seq<Piece>, q: nat)
    requires q < |b|
    ensures var xs, i := a + b + c, |a| + q;
            xs[i] == b[q] && xs[..i + 1] == a + b[..q + 1] && xs[i..] == b[q..] + c
  {
  }

  // ---- one gap in a run --------------------------------------------------------------------------

  /** The first packet that counts again behind the gap: a repeat is dropped. */
  function Resumes(i: nat, j: nat): (r: nat)
    requires i < j
  {
    if (j - i) % 16 == 1 then j else j + 1
  }

  /** The bytes that fill up what was in flight: the rest of the PES packet they belong to. */
  function Stray(xs: seq<Piece>, r: nat): (s: seq<byte>)
  {
    if r < |xs| && !xs[r].Start() && xs[r].from <= |xs[r].whole| then xs[r].whole[xs[r].from..] else []
  }

  /** The first operation delivered whole again. */
  function Recovered(pid: Pid, ops: seq<Op>, cc: Counter, r: nat): (m: nat)
    ensures m <= |ops|
  {
    var xs := StreamOn(pid, ops, cc);
    if r >= |xs| then |ops| else if xs[r].Start() then OpAt(pid, ops, cc, r) else OpAt(pid, ops, cc, r) + 1
  }

  lemma SubDeclared(pid: Pid, video: bool, ops: seq<Op>, a: nat, b: nat)
    requires SendsDeclared(pid, video, ops) && a <= b <= |ops|
    ensures SendsDeclared(pid, video, ops[a..b])
  {
    forall i | 0 <= i < b - a ensures SendDeclared(pid, video, ops[a..b][i]) { assert SendDeclared(pid, video, ops[a + i]); }
  }

  lemma Cat(a: seq<Outcome>, b: seq<Outcome>, c: seq<Outcome>, d: seq<Outcome>)
    ensures a + b + c + d == a + (b + c + d) && a + b + c == a + (b + c) && [] + a == a && a + [] == a
  {
  }

  /** The run up to packet `i`: what came before is delivered, its own PES packet grown so far. */
  lemma HeadRan(cap: nat, video: bool, pid: Pid, ops: seq<Op>, cc: Counter, i: nat)
    requires SendsDeclared(pid, video, ops) && i < |StreamOn(pid, ops, cc)| && StreamOn(pid, ops, cc)[i].End() <= cap
    ensures var xs := StreamOn(pid, ops, cc);
            && 6 <= xs[i].End() <= |xs[i].whole| && Declared(xs[i].whole, video)
            && PiecesRan(cap, video, pid, None, xs[..i + 1])
               == (Grown(cap, pid, xs[i]).0, AllDelivered(cap, pid, ops[..OpAt(pid, ops, cc, i)]) + Grown(cap, pid, xs[i]).1)
  {
    hide PiecesRan, PiecesOf, Grown, StreamOn, AllDelivered, Finished;
    var k := OpAt(pid, ops, cc, i);
    var q := Located(pid, ops, cc, i);
    var c1 := CounterOf(pid, ops, cc, k);
    var head, own := StreamOn(pid, ops[..k], cc), PiecesOf(ops[k].af, ops[k].whole, c1);
    ThreeParts(head, own, StreamOn(pid, ops[k + 1..], CounterAfter(pid, c1, ops[k])), q);
    assert SendDeclared(pid, video, ops[k]);
    PiecesCover(ops[k].af, ops[k].whole, c1);
    SubDeclared(pid, video, ops, 0, k);
    assert ops[0..k] == ops[..k];
    StreamGives(cap, video, pid, None, ops[..k], cc);
    var (part, outs) := PiecesRan(cap, video, pid, None, head);
    HeadGrown(cap, video, pid, part, own, ops[k].whole, ops[k].af.randomAccess, q);
    PiecesRanConcat(cap, video, pid, None, head, own[..q + 1]);
    Cat(outs, Owed(pid, part), Grown(cap, pid, own[q]).1, []);
    NothingAdded(AllDelivered(cap, pid, ops[..k]));
  }

  /** What the rest of the run makes of packet `x` and what is behind the gap. */
  predicate Settles(cap: nat, video: bool, pid: Pid, x: Piece, rest: seq<Piece>, s: seq<byte>, want: seq<Outcome>)
    requires 6 <= x.End() <= |x.whole|
  {
    var (part, outs) := PiecesRan(cap, video, pid, Grown(cap, pid, x).0, rest);
    Grown(cap, pid, x).1 + outs + Owed(pid, part) == Finished(pid, Mixed(x.whole, x.End(), s, x.randomAccess)) + want
  }

  lemma SettlesAlone(cap: nat, video: bool, pid: Pid, x: Piece)
    requires 6 <= x.End() <= |x.whole| && x.End() <= cap && Declared(x.whole, video)
    ensures Grown(cap, pid, x).1 + Owed(pid, Grown(cap, pid, x).0) == Finished(pid, Mixed(x.whole, x.End(), [], x.randomAccess))
  {
    hide Grown, Mixed, Finished;
    var w := x.whole;
    GrownThenRest(cap, video, pid, x, NOTHING, w, |w|, 0);
    assert w[|w|..] == [];
    NothingAdded(Grown(cap, pid, x).1);
  }

  lemma SettlesAtEnd(cap: nat, video: bool, pid: Pid, x: Piece)
    requires 6 <= x.End() <= |x.whole| && x.End() <= cap && Declared(x.whole, video)
    ensures Settles(cap, video, pid, x, [], [], [])
  {
    hide Grown, Mixed, Finished;
    SettlesAlone(cap, video, pid, x);
    NothingAdded(Grown(cap, pid, x).1);
    NothingAdded(Finished(pid, Mixed(x.whole, x.End(), [], x.randomAccess)));
  }

  lemma SettlesAtStart(cap: nat, video: bool, pid: Pid, x: Piece, ops: seq<Op>, cc: Counter)
    requires 6 <= x.End() <= |x.whole| && x.End() <= cap && Declared(x.whole, video) && SendsDeclared(pid, video, ops)
    ensures Settles(cap, video, pid, x, StreamOn(pid, ops, cc), [], AllDelivered(cap, pid, ops))
  {
    hide Grown, Mixed, Finished, PiecesRan, StreamOn, AllDelivered;
    SettlesAlone(cap, video, pid, x);
    var part := Grown(cap, pid, x).0;
    StreamGives(cap, video, pid, part, ops, cc);
    var (part', outs) := PiecesRan(cap, video, pid, part, StreamOn(pid, ops, cc));
    Cat(Grown(cap, pid, x).1, outs, Owed(pid, part'), []);
    Cat(Grown(cap, pid, x).1, Owed(pid, part), AllDelivered(cap, pid, ops), []);
  }

  lemma SettlesInside(cap: nat, video: bool, pid: Pid, x: Piece, af: Adaptation, w: seq<byte>, from: nat, c1: Counter,
                      ops: seq<Op>, cc: Counter)
    requires 6 <= x.End() <= |x.whole| && Declared(x.whole, video) && SendsDeclared(pid, video, ops)
    requires 0 < from <= |w| && x.End() + (|w| - from) <= cap
    ensures Settles(cap, video, pid, x, PiecesFrom(af, w, from, c1) + StreamOn(pid, ops, cc), w[from..],
                    AllDelivered(cap, pid, ops))
  {
    hide Grown, Mixed, Finished, PiecesRan, StreamOn, AllDelivered, PiecesFrom;
    GrownThenRest(cap, video, pid, x, af, w, from, c1);
    var part, xs := Grown(cap, pid, x).0, PiecesFrom(af, w, from, c1);
    var (part1, outs1) := PiecesRan(cap, video, pid, part, xs);
    StreamGives(cap, video, pid, part1, ops, cc);
    var (part2, outs2) := PiecesRan(cap, video, pid, part1, StreamOn(pid, ops, cc));
    PiecesRanConcat(cap, video, pid, part, xs, StreamOn(pid, ops, cc));
    Rejoin(Grown(cap, pid, x).1, outs1, outs2, Owed(pid, part2), Owed(pid, part1), AllDelivered(cap, pid, ops));
  }

  lemma Rejoin(g: seq<Outcome>, a: seq<Outcome>, b: seq<Outcome>, o2: seq<Outcome>, o1: seq<Outcome>, d: seq<Outcome>)
    requires b + o2 == o1 + d
    ensures g + (a + b) + o2 == g + a + o1 + d
  {
    calc {
      g + (a + b) + o2;
      { assert g + (a + b) == g + a + b; }
      g + a + b + o2;
      { Cat(g + a, b, o2, []); }
      g + a + (b + o2);
      g + a + (o1 + d);
      { Cat(g + a, o1, d, []); }
      g + a + o1 + d;
    }
  }

  /** The stream from packet `r` on, when it starts a PES packet. */
  lemma FromStart(pid: Pid, ops: seq<Op>, cc: Counter, r: nat)
    requires r < |StreamOn(pid, ops, cc)| && StreamOn(pid, ops, cc)[r].Start()
    ensures var k := OpAt(pid, ops, cc, r);
            StreamOn(pid, ops, cc)[r..] == StreamOn(pid, ops[k..], CounterOf(pid, ops, cc, k))
  {
    hide StreamOn, PiecesOf;
    var k := OpAt(pid, ops, cc, r);
    var q := Located(pid, ops, cc, r);
    var c1 := CounterOf(pid, ops, cc, k);
    var own, rest := PiecesOf(ops[k].af, ops[k].whole, c1), StreamOn(pid, ops[k + 1..], CounterAfter(pid, c1, ops[k]));
    ThreeParts(StreamOn(pid, ops[..k], cc), own, rest, q);
    PiecesCover(ops[k].af, ops[k].whole, c1);
    assert own[0..] == own;
  }

  /** And when it does not. */
  lemma FromInside(pid: Pid, ops: seq<Op>, cc: Counter, r: nat)
    requires r < |StreamOn(pid, ops, cc)| && !StreamOn(pid, ops, cc)[r].Start()
    ensures var xs, k := StreamOn(pid, ops, cc), OpAt(pid, ops, cc, r);
            && ops[k].Send? && xs[r].whole == ops[k].whole && 0 < xs[r].from <= |ops[k].whole|
            && xs[r..] == PiecesFrom(ops[k].af, ops[k].whole, xs[r].from, xs[r].cc)
                          + StreamOn(pid, ops[k + 1..], CounterAfter(pid, CounterOf(pid, ops, cc, k), ops[k]))
  {
    hide StreamOn, PiecesOf;
    var k := OpAt(pid, ops, cc, r);
    var q := Located(pid, ops, cc, r);
    var c1 := CounterOf(pid, ops, cc, k);
    var own, rest := PiecesOf(ops[k].af, ops[k].whole, c1), StreamOn(pid, ops[k + 1..], CounterAfter(pid, c1, ops[k]));
    ThreeParts(StreamOn(pid, ops[..k], cc), own, rest, q);
    PiecesCover(ops[k].af, ops[k].whole, c1);
    OwnSuffix(ops[k].af, ops[k].whole, c1, q);
  }

  /** The run from packet `r` on. */
  lemma TailRan(cap: nat, video: bool, pid: Pid, x: Piece, ops: seq<Op>, cc: Counter, r: nat)
    requires SendsDeclared(pid, video, ops) && 6 <= x.End() <= |x.whole| && Declared(x.whole, video)
    requires r <= |StreamOn(pid, ops, cc)| && x.End() + |Stray(StreamOn(pid, ops, cc), r)| <= cap
    ensures var xs := StreamOn(pid, ops, cc);
            Settles(cap, video, pid, x, xs[r..], Stray(xs, r), AllDelivered(cap, pid, ops[Recovered(pid, ops, cc, r)..]))
  {
    hide Settles, StreamOn, PiecesFrom, AllDelivered, Declared, CounterOf, CounterAfter, OpAt;
    var xs := StreamOn(pid, ops, cc);
    if r == |xs| {
      NoneDelivered(cap, pid);
      assert xs[r..] == [] && ops[|ops|..] == [];
      SettlesAtEnd(cap, video, pid, x);
    } else {
      var k := OpAt(pid, ops, cc, r);
      if xs[r].Start() {
        FromStart(pid, ops, cc, r);
        SubDeclared(pid, video, ops, k, |ops|);
        assert ops[k..|ops|] == ops[k..];
        SettlesAtStart(cap, video, pid, x, ops[k..], CounterOf(pid, ops, cc, k));
      } else {
        FromInside(pid, ops, cc, r);
        SubDeclared(pid, video, ops, k + 1, |ops|);
        assert ops[k + 1..|ops|] == ops[k + 1..];
        SettlesInside(cap, video, pid, x, ops[k].af, ops[k].whole, xs[r].from, xs[r].cc, ops[k + 1..],
                      CounterAfter(pid, CounterOf(pid, ops, cc, k), ops[k]));
      }
    }
  }

  lemma OwnSuffix(af: Adaptation, w: Scratch, cc: Counter, q: nat)
    requires 0 < q < |PiecesOf(af, w, cc)|
    ensures var own := PiecesOf(af, w, cc);
            0 < own[q].from <= |w| && own[q..] == PiecesFrom(af, w, own[q].from, own[q].cc)
  {
    PiecesSuffix(af, w, 0, cc, q);
    PiecesCover(af, w, cc);
  }

  lemma NoneDelivered(cap: nat, pid: Pid)
    ensures AllDelivered(cap, pid, []) == []
  {
  }

  /** The whole run around the gap: everything before is delivered, the packet in flight is
      filled up with the stray bytes, and everything behind them is delivered again. */
  lemma GapRan(cap: nat, video: bool, pid: Pid, ops: seq<Op>, cc: Counter, i: nat, r: nat)
    requires var xs := StreamOn(pid, ops, cc);
             && SendsDeclared(pid, video, ops) && i < r <= |xs| && xs[i].End() + |Stray(xs, r)| <= cap
    ensures var xs := StreamOn(pid, ops, cc);
            && 6 <= xs[i].End() <= |xs[i].whole|
            && var (part, outs) := PiecesRan(cap, video, pid, None, xs[..i + 1] + xs[r..]);
            outs + Owed(pid, part)
            == AllDelivered(cap, pid, ops[..OpAt(pid, ops, cc, i)])
               + Finished(pid, Mixed(xs[i].whole, xs[i].End(), Stray(xs, r), xs[i].randomAccess))
               + AllDelivered(cap, pid, ops[Recovered(pid, ops, cc, r)..])
  {
    hide StreamOn, AllDelivered, PiecesRan, Grown, Finished, Mixed, Stray, Recovered, OpAt, Declared;
    var xs := StreamOn(pid, ops, cc);
    HeadRan(cap, video, pid, ops, cc, i);
    TailRan(cap, video, pid, xs[i], ops, cc, r);
    PiecesRanConcat(cap, video, pid, None, xs[..i + 1], xs[r..]);
    var grown := Grown(cap, pid, xs[i]);
    var (part, outs) := PiecesRan(cap, video, pid, grown.0, xs[r..]);
    Enclosed(AllDelivered(cap, pid, ops[..OpAt(pid, ops, cc, i)]), grown.1, outs, Owed(pid, part),
            Finished(pid, Mixed(xs[i].whole, xs[i].End(), Stray(xs, r), xs[i].randomAccess)),
            AllDelivered(cap, pid, ops[Recovered(pid, ops, cc, r)..]));
  }

  lemma Enclosed(d: seq<Outcome>, g: seq<Outcome>, o: seq<Outcome>, w: seq<Outcome>, m: seq<Outcome>, e: seq<Outcome>)
    requires g + o + w == m + e
    ensures d + g + o + w == d + m + e
  {
    Cat(d, g, o, w);
    Cat(d, m, e, []);
  }

  // ---- what the counter makes of it -------------------------------------------------------------

  /** Stepping over a multiple of sixteen packets is in step. */
  lemma InStepAcross(xs: seq<Piece>, i: nat, j: nat)
    requires Chained(xs) && i < j < |xs| && (j - i) % 16 == 1
    ensures InStep(xs[..i + 1] + xs[j..])
  {
    var ys := xs[..i + 1] + xs[j..];
    CounterAt(xs, i, j);
    CounterGap(xs[i].cc, xs[j].cc, j - i);
    forall p, q | 0 <= p && q == p + 1 < |ys| ensures ys[q].cc == Next(ys[p].cc) {
      if p < i {
        assert Follows(xs[p], xs[q]);
      } else if p > i {
        assert Follows(xs[j + (p - i - 1)], xs[j + (q - i - 1)]);
      }
    }
    forall k | 0 <= k < |ys| ensures ys[k].Valid() {
      assert ys[k] == if k <= i then xs[k] else xs[j + (k - i - 1)];
    }
  }

  lemma InStepRest(xs: seq<Piece>, p: nat, q: nat)
    requires Chained(xs) && p <= q <= |xs|
    ensures InStep(xs[p..q])
  {
    var ys := xs[p..q];
    forall i, j | 0 <= i && j == i + 1 < |ys| ensures ys[j].cc == Next(ys[i].cc) {
      assert Follows(xs[p + i], xs[p + j]);
    }
  }

  /** A packet that repeats the last one as far as the demuxer can tell is dropped. */
  lemma DroppedRepeat(cap: nat, video: bool, pid: Pid, v: View, x: Piece, y: Piece)
    requires x.Valid() && y.Valid() && pid != NULL_PID && x.cc == y.cc && SameButPcr(Raw(pid, x), Raw(pid, y))
    requires v.seen == SeenBy(pid, x)
    ensures PidProcessed(cap, video, v, Raw(pid, y)) == (View(SeenBy(pid, x).(repeated := true), v.part), [])
  {
    hide Raw;
    hide Parse;
    hide SameButPcr;
    RawReads(pid, y);
  }

  lemma {:induction false} PidRanConcat(cap: nat, video: bool, v: View, a: seq<seq<byte>>, b: seq<seq<byte>>)
    ensures var (v1, outs1) := PidRan(cap, video, v, a);
            var (v2, outs2) := PidRan(cap, video, v1, b);
            PidRan(cap, video, v, a + b) == (v2, outs1 + outs2)
    decreases |a|
  {
    hide PidProcessed;
    if a == [] {
      assert a + b == b;
      NothingAdded(PidRan(cap, video, v, b).1);
    } else {
      var (v1, outs1) := PidProcessed(cap, video, v, a[0]);
      assert a + b == [a[0]] + (a[1..] + b) && a == [a[0]] + a[1..];
      PidRanConcat(cap, video, v1, a[1..], b);
      PidRanStep(cap, video, v, a[0], a[1..] + b);
      var (v2, outs2) := PidRan(cap, video, v1, a[1..]);
      Regroup(outs1, outs2, PidRan(cap, video, v2, b).1);
    }
  }

  const START := View(UNSEEN, None)

  /** Lost in a multiple of sixteen: the counter has come round, and the demuxer just appends. */
  lemma RoundUnseen(cap: nat, video: bool, pid: Pid, xs: seq<Piece>, i: nat, j: nat)
    requires Chained(xs) && pid != NULL_PID && i < j < |xs| && (j - i) % 16 == 1
    ensures var (v, outs) := PidRan(cap, video, START, Raws(pid, xs[..i + 1] + xs[j..]));
            (v.part, outs) == PiecesRan(cap, video, pid, None, xs[..i + 1] + xs[j..])
  {
    hide Raws, PiecesRan;
    InStepAcross(xs, i, j);
    InStepRan(cap, video, pid, START, xs[..i + 1] + xs[j..]);
  }

  /** One fewer, and a packet that repeats the last one seen (padding, a run of equal bytes):
      it is dropped as a duplicate, and those after it are appended. */
  lemma RepeatUnseen(cap: nat, video: bool, pid: Pid, xs: seq<Piece>, i: nat, j: nat)
    requires Chained(xs) && pid != NULL_PID && i < j < |xs| && (j - i) % 16 == 0
    requires SameButPcr(RawOf(pid)(xs[i]), RawOf(pid)(xs[j]))
    ensures var (v, outs) := PidRan(cap, video, START, Raws(pid, xs[..i + 1] + xs[j..]));
            (v.part, outs) == PiecesRan(cap, video, pid, None, xs[..i + 1] + xs[j + 1..])
  {
    hide Raws, PiecesRan, PidProcessed, SameButPcr, Raw;
    var head, rest := xs[..i + 1], xs[j + 1..];
    RepeatSplit(pid, xs, i, j);
    PidRanConcat(cap, video, START, Raws(pid, head), [Raw(pid, xs[j])] + Raws(pid, rest));
    InStepRest(xs, 0, i + 1);
    assert xs[0..i + 1] == head;
    InStepRan(cap, video, pid, START, head);
    var (part, outs) := PiecesRan(cap, video, pid, None, head);
    var v := View(SeenBy(pid, xs[i]), part);
    CounterAt(xs, i, j);
    CounterGap(xs[i].cc, xs[j].cc, j - i);
    DroppedRepeat(cap, video, pid, v, xs[i], xs[j]);
    var v1 := View(SeenBy(pid, xs[i]).(repeated := true), part);
    PidRanStep(cap, video, v, Raw(pid, xs[j]), Raws(pid, rest));
    InStepRest(xs, j + 1, |xs|);
    assert xs[j + 1..|xs|] == rest;
    if rest != [] { assert Follows(xs[j], xs[j + 1]); }
    InStepRan(cap, video, pid, v1, rest);
    PiecesRanConcat(cap, video, pid, None, head, rest);
    NothingAdded(PiecesRan(cap, video, pid, part, rest).1);
  }

  lemma RepeatSplit(pid: Pid, xs: seq<Piece>, i: nat, j: nat)
    requires i < j < |xs| && xs[j].Valid()
    ensures Raws(pid, xs[..i + 1] + xs[j..]) == Raws(pid, xs[..i + 1]) + ([Raw(pid, xs[j])] + Raws(pid, xs[j + 1..]))
  {
    hide Raw;
    MappedConcat(RawOf(pid), xs[..i + 1], xs[j..]);
    assert xs[j..] == [xs[j]] + xs[j + 1..];
    RawsCons(pid, xs[j], xs[j + 1..]);
  }

  lemma UnseenRan(cap: nat, video: bool, pid: Pid, xs: seq<Piece>, i: nat, j: nat)
    requires Chained(xs) && pid != NULL_PID && i < j < |xs| && !Shows(pid, xs, i, j)
    ensures var (v, outs) := PidRan(cap, video, START, Raws(pid, xs[..i + 1] + xs[j..]));
            (v.part, outs) == PiecesRan(cap, video, pid, None, xs[..i + 1] + xs[Resumes(i, j)..])
  {
    hide Raws, PiecesRan, PidRan, RawOf, SameButPcr;
    if (j - i) % 16 == 1 {
      RoundUnseen(cap, video, pid, xs, i, j);
    } else {
      RepeatUnseen(cap, video, pid, xs, i, j);
    }
  }

  // ---- the theorem -------------------------------------------------------------------------------

  /** A run of the muxer of which the PID's packets between `i` and `j` are lost, with any bytes
      on the other PIDs, and room for what fills up the packet in flight. */
  ghost predicate OneGap(caps: Caps, streams: Streams, pid: Pid, cc: Counter, ops: seq<Op>, ts: seq<seq<byte>>, i: nat,
                         j: nat)
  {
    && pid in streams && pid != NULL_PID && SendsDeclared(pid, streams[pid], ops)
    && var xs := StreamOn(pid, ops, cc);
    && i < j < |xs|
    && xs[i].End() + |Stray(xs, Resumes(i, j))| <= caps.perPid
    && LiveOn(pid, ts) == Raws(pid, xs[..i + 1] + xs[j..])
    && NoTotal(Ran(caps, streams, IDLE, ts).1)
  }

  /** The packet in flight at the gap, filled up. */
  function FilledUp(xs: seq<Piece>, i: nat, j: nat): (p: Partial)
    requires i < j && i < |xs| && 6 <= xs[i].End() <= |xs[i].whole|
  {
    Mixed(xs[i].whole, xs[i].End(), Stray(xs, Resumes(i, j)), xs[i].randomAccess)
  }

  /** For every run and every one gap that does not show, everything the demuxer reports on the
      PID: the PES packets before, the one in flight filled up with the bytes behind the gap
      to its declared length or to their end, and the PES packets after. */
  lemma UnseenGapExact(caps: Caps, streams: Streams, pid: Pid, cc: Counter, ops: seq<Op>, ts: seq<seq<byte>>, i: nat,
                       j: nat)
    requires OneGap(caps, streams, pid, cc, ops, ts, i, j) && !Shows(pid, StreamOn(pid, ops, cc), i, j)
    ensures var xs := StreamOn(pid, ops, cc);
            && 6 <= xs[i].End() <= |xs[i].whole|
            && OutcomesOn(pid, RanAndFlushed(caps, streams, ts))
               == AllDelivered(caps.perPid, pid, ops[..OpAt(pid, ops, cc, i)])
                  + Finished(pid, FilledUp(xs, i, j))
                  + AllDelivered(caps.perPid, pid, ops[Recovered(pid, ops, cc, Resumes(i, j))..])
  {
    hide StreamOn, AllDelivered, PiecesRan, Finished, Mixed, Stray, Recovered, OpAt, Shows, Raws, Ran, PidRan,
         OutcomesOn;
    var xs := StreamOn(pid, ops, cc);
    RunLocal(caps, streams, IDLE, ts, pid);
    StreamChained(pid, ops, cc);
    UnseenRan(caps.perPid, streams[pid], pid, xs, i, j);
    GapRan(caps.perPid, streams[pid], pid, ops, cc, i, Resumes(i, j));
    FlushedOn(caps, streams, ts, pid);
  }

  /** Handing it over is no lie: it is marked as short, does not parse, or parses to a PES
      packet that was sent. */
  predicate Excused(pid: Pid, ops: seq<Op>, part: Partial)
  {
    || (part.total.Some? && |part.buf| < part.total.value)
    || (var r := ParsePes(pid, part.buf, part.randomAccess); r.Got? ==> SentOn(pid, ops, r.pes))
  }

  lemma FinishedTruthful(pid: Pid, ops: seq<Op>, part: Partial)
    requires part.damage.None?
    ensures Paired(Finished(pid, part)) && (Truthful(pid, ops, Finished(pid, part)) <==> Excused(pid, ops, part))
  {
    hide SentOn, ParsePes;
    var outs := Finished(pid, part);
    var r := ParsePes(pid, part.buf, part.randomAccess);
    if r.Got? {
      var at := |outs| - 1;
      assert outs[at] == Complete(r.pes);
      assert Truthful(pid, ops, outs) <==> TruthfulAt(pid, ops, outs, at);
    }
  }

  lemma TruthfulConcat(pid: Pid, ops: seq<Op>, a: seq<Outcome>, b: seq<Outcome>)
    requires Paired(a)
    ensures Truthful(pid, ops, a + b) <==> Truthful(pid, ops, a) && Truthful(pid, ops, b)
  {
    hide SentOn;
    var all := a + b;
    forall k | 0 <= k < |a| && a[k].Complete? ensures TruthfulAt(pid, ops, a, k) <==> TruthfulAt(pid, ops, all, k) {
      assert all[k] == a[k] && (k > 0 ==> all[k - 1] == a[k - 1]);
    }
    forall k | 0 <= k < |b| && b[k].Complete? ensures TruthfulAt(pid, ops, b, k) <==> TruthfulAt(pid, ops, all, |a| + k) {
      assert all[|a| + k] == b[k] && (k > 0 ==> all[|a| + k - 1] == b[k - 1]);
      assert k == 0 && a != [] ==> all[|a| - 1] == a[|a| - 1];
    }
    if Truthful(pid, ops, all) {
      forall k | 0 <= k < |a| && a[k].Complete? ensures TruthfulAt(pid, ops, a, k) { assert all[k].Complete?; }
      forall k | 0 <= k < |b| && b[k].Complete? ensures TruthfulAt(pid, ops, b, k) { assert all[|a| + k].Complete?; }
    }
    if Truthful(pid, ops, a) && Truthful(pid, ops, b) {
      forall k | 0 <= k < |all| && all[k].Complete? ensures TruthfulAt(pid, ops, all, k) {
        if k < |a| { assert a[k].Complete?; } else { assert b[k - |a|].Complete?; }
      }
    }
  }

  lemma {:induction false} DeliveredTruthful(cap: nat, pid: Pid, ops: seq<Op>, some: seq<Op>)
    requires forall op | op in some :: op in ops
    ensures var outs := AllDelivered(cap, pid, some); Paired(outs) && Truthful(pid, ops, outs)
    decreases |some|
  {
    if some != [] {
      DeliveredTruthful(cap, pid, ops, some[1..]);
      OneTruthful(cap, pid, ops, some[0]);
      PairedConcat(DeliveredBy(cap, pid, some[0]), AllDelivered(cap, pid, some[1..]));
      TruthfulConcat(pid, ops, DeliveredBy(cap, pid, some[0]), AllDelivered(cap, pid, some[1..]));
    }
  }

  lemma OneTruthful(cap: nat, pid: Pid, ops: seq<Op>, op: Op)
    requires op in ops
    ensures var outs := DeliveredBy(cap, pid, op); Paired(outs) && Truthful(pid, ops, outs)
  {
    hide ParsePes;
    if op.Send? && op.pid == pid {
      var r := ParsePes(pid, op.whole, op.af.randomAccess);
      if r.Got? {
        assert Sends(pid, op, r.pes);
        assert SentOn(pid, ops, r.pes);
      }
    }
  }

  lemma ThreeTruthful(pid: Pid, ops: seq<Op>, a: seq<Outcome>, b: seq<Outcome>, c: seq<Outcome>)
    requires Paired(a) && Paired(b) && Truthful(pid, ops, a) && Truthful(pid, ops, c)
    ensures Truthful(pid, ops, a + b + c) <==> Truthful(pid, ops, b)
  {
    hide Truthful;
    TruthfulConcat(pid, ops, a, b);
    PairedConcat(a, b);
    TruthfulConcat(pid, ops, a + b, c);
  }

  /** Behind an unseen gap the report is truthful exactly when what was filled up is excused. */
  lemma UnseenGapTruthful(caps: Caps, streams: Streams, pid: Pid, cc: Counter, ops: seq<Op>, ts: seq<seq<byte>>,
                          i: nat, j: nat)
    requires OneGap(caps, streams, pid, cc, ops, ts, i, j) && !Shows(pid, StreamOn(pid, ops, cc), i, j)
    ensures var xs := StreamOn(pid, ops, cc);
            && 6 <= xs[i].End() <= |xs[i].whole|
            && (Truthful(pid, ops, OutcomesOn(pid, RanAndFlushed(caps, streams, ts))) <==> Excused(pid, ops, FilledUp(xs, i, j)))
  {
    UnseenGapExact(caps, streams, pid, cc, ops, ts, i, j);
    hide Truthful, AllDelivered, Finished, Excused, OutcomesOn, RanAndFlushed, Shows, StreamOn, Stray, OneGap;
    var xs := StreamOn(pid, ops, cc);
    var before, after := ops[..OpAt(pid, ops, cc, i)], ops[Recovered(pid, ops, cc, Resumes(i, j))..];
    DeliveredTruthful(caps.perPid, pid, ops, before);
    DeliveredTruthful(caps.perPid, pid, ops, after);
    FinishedTruthful(pid, ops, FilledUp(xs, i, j));
    ThreeTruthful(pid, ops, AllDelivered(caps.perPid, pid, before), Finished(pid, FilledUp(xs, i, j)),
                  AllDelivered(caps.perPid, pid, after));
  }
}
