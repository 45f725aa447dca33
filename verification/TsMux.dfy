/** The muxer's packetizer (`drain_pes_scratch`) with its per-PID continuity counters, and the
    stream of packets each PID gets from it. */
module TsMux {
  import opened Bytes
  import opened TsPacket

  /** One packet's share of a PES packet: `size` bytes of `whole` at `from`, the adaptation
      field it has, its counter and the random access flag the PES packet started with. */
  datatype Piece = Piece(whole: seq<byte>, from: nat, size: nat, af: Adaptation, cc: Counter, randomAccess: bool)
  {
    function End(): (n: nat) { from + size }

    predicate Start() { from == 0 }

    /** As much of the rest as fits; only the first packet has an adaptation field to carry. */
    predicate Valid()
    {
      && from < |whole| && size == Consumed(af, |whole| - from)
      && (if from == 0 then af.randomAccess == randomAccess else af == NOTHING)
    }
  }

  function Next(cc: Counter): (r: Counter)
  {
    (cc + 1) % 16
  }

  function PieceAt(af: Adaptation, whole: seq<byte>, from: nat, cc: Counter): (x: Piece)
    requires from < |whole|
    ensures x.Valid() && x.whole == whole && x.from == from < x.End() <= |whole| && x.cc == cc
    ensures x.randomAccess == af.randomAccess
  {
    var a := if from == 0 then af else NOTHING;
    Piece(whole, from, Consumed(a, |whole| - from), a, cc, af.randomAccess)
  }

  /** The pieces of `whole` from offset `from` on. */
  function PiecesFrom(af: Adaptation, whole: seq<byte>, from: nat, cc: Counter): (r: seq<Piece>)
    requires from <= |whole|
    decreases |whole| - from
  {
    if from == |whole| then []
    else
      var x := PieceAt(af, whole, from, cc);
      [x] + PiecesFrom(af, whole, x.End(), Next(cc))
  }

  /** The packet of a piece. */
  function Raw(pid: Pid, x: Piece): (s: seq<byte>)
    requires x.Valid()
    ensures |s| == PACKET
  {
    Packet(pid, x.Start(), x.af, x.whole[x.from..], x.cc)
  }

  predicate AllValid(xs: seq<Piece>)
  {
    forall i {:trigger xs[i].Valid()} | 0 <= i < |xs| :: xs[i].Valid()
  }

  function RawOf(pid: Pid): (f: Piece -> seq<byte>)
  {
    (x: Piece) => if x.Valid() then Raw(pid, x) else []
  }

  function Mapped<T, U>(f: T -> U, xs: seq<T>): (r: seq<U>)
    ensures |r| == |xs|
  {
    if xs == [] then [] else [f(xs[0])] + Mapped(f, xs[1..])
  }

  lemma {:induction false} MappedConcat<T, U>(f: T -> U, a: seq<T>, b: seq<T>)
    ensures Mapped(f, a + b) == Mapped(f, a) + Mapped(f, b)
  {
    if a == [] {
      assert a + b == b;
    } else {
      assert (a + b)[0] == a[0] && (a + b)[1..] == a[1..] + b;
      MappedConcat(f, a[1..], b);
    }
  }

  /** The packets of a run of pieces. */
  function Raws(pid: Pid, xs: seq<Piece>): (r: seq<seq<byte>>)
    ensures |r| == |xs|
  {
    Mapped(RawOf(pid), xs)
  }

  lemma RawsCons(pid: Pid, x: Piece, xs: seq<Piece>)
    requires x.Valid()
    ensures Raws(pid, [x] + xs) == [Raw(pid, x)] + Raws(pid, xs)
  {
    assert ([x] + xs)[1..] == xs;
  }

  /** `y` is the packet after `x`: the counter moves on, and it starts a new PES packet exactly
      when `x` ended one. */
  predicate Follows(x: Piece, y: Piece)
  {
    && y.cc == Next(x.cc)
    && (if y.Start() then x.End() == |x.whole|
        else y.from == x.End() && y.whole == x.whole && y.randomAccess == x.randomAccess)
  }

  predicate Chained(xs: seq<Piece>)
  {
    AllValid(xs) && forall i, j | 0 <= i && j == i + 1 < |xs| :: Follows(xs[i], xs[j])
  }

  lemma ChainedConcat(a: seq<Piece>, b: seq<Piece>)
    requires Chained(a) && Chained(b) && (a != [] && b != [] ==> Follows(a[|a| - 1], b[0]))
    ensures Chained(a + b)
  {
    var ys := a + b;
    forall i, j | 0 <= i && j == i + 1 < |ys| ensures Follows(ys[i], ys[j]) {
      if j < |a| {
        assert Follows(a[i], a[j]);
      } else if i >= |a| {
        assert Follows(b[i - |a|], b[j - |a|]);
      }
    }
  }

  lemma NextMany(cc: Counter, n: nat)
    ensures (Next(cc) + n) % 16 == (cc + n + 1) % 16 && Next((cc + n) % 16) == (cc + n + 1) % 16
  {
    OneMore(cc + n);
    if cc == 15 {
      Round(n);
    }
  }

  lemma OneMore(n: nat)
    ensures (n % 16 + 1) % 16 == (n + 1) % 16
  {
  }

  lemma Round(n: nat)
    ensures (n + 16) % 16 == n % 16
  {
  }

  predicate Opens(xs: seq<Piece>, cc: Counter)
  {
    xs != [] && xs[0].cc == cc && xs[0].Start()
  }

  /** Ends a PES packet and leaves the counter at `cc`. */
  predicate Closes(xs: seq<Piece>, cc: Counter)
  {
    xs != [] && xs[|xs| - 1].End() == |xs[|xs| - 1].whole| && Next(xs[|xs| - 1].cc) == cc
  }

  /** The rest of a PES packet is chained, ends where the PES packet ends and leaves the counter
      one further per packet. */
  lemma {:induction false} PiecesShape(af: Adaptation, whole: seq<byte>, from: nat, cc: Counter)
    requires from < |whole|
    ensures var xs := PiecesFrom(af, whole, from, cc);
            xs != [] && xs[0] == PieceAt(af, whole, from, cc) && Chained(xs) && Closes(xs, (cc + |xs|) % 16)
    decreases |whole| - from
  {
    var x := PieceAt(af, whole, from, cc);
    var rest := PiecesFrom(af, whole, x.End(), Next(cc));
    if x.End() < |whole| {
      PiecesShape(af, whole, x.End(), Next(cc));
      NextMany(cc, |rest|);
      assert Follows(x, rest[0]);
    }
    ChainedConcat([x], rest);
  }

  // ---- runs ----------------------------------------------------------------------------

  /** The bytes of one PES packet, as the muxer has them before cutting. */
  type Scratch = s: seq<byte> | s != [] witness [0]

  /** One PES packet on a PID, its first packet with this adaptation field; or a heartbeat. */
  datatype Op = Send(pid: Pid, af: Adaptation, whole: Scratch) | Beat(pid: Pid, pcr: u64)

  /** The next counter of every PID. */
  type Counters = c: seq<Counter> | |c| == 0x2000 witness seq(0x2000, _ => 0)

  function PiecesOf(af: Adaptation, whole: Scratch, cc: Counter): (r: seq<Piece>)
  {
    PiecesFrom(af, whole, 0, cc)
  }

  lemma PiecesOfShape(af: Adaptation, whole: Scratch, cc: Counter)
    ensures var xs := PiecesOf(af, whole, cc); Chained(xs) && Opens(xs, cc) && Closes(xs, (cc + |xs|) % 16)
  {
    PiecesShape(af, whole, 0, cc);
  }

  /** What one operation adds to a PID's stream. */
  function AddsTo(pid: Pid, cc: Counter, op: Op): (r: seq<Piece>)
  {
    if op.Send? && op.pid == pid then PiecesOf(op.af, op.whole, cc) else []
  }

  function CounterAfter(pid: Pid, cc: Counter, op: Op): (r: Counter)
  {
    (cc + |AddsTo(pid, cc, op)|) % 16
  }

  function Emitted(c: Counters, op: Op): (r: seq<seq<byte>>)
  {
    match op
    case Send(pid, af, whole) => Raws(pid, PiecesOf(af, whole, c[pid]))
    case Beat(pid, pcr) => [PcrOnlyPacket(pid, pcr, c[pid])]
  }

  function Advanced(c: Counters, op: Op): (r: Counters)
    ensures forall p: Pid :: r[p] == CounterAfter(p, c[p], op)
  {
    c[op.pid := CounterAfter(op.pid, c[op.pid], op)]
  }

  /** Everything a run of the muxer puts out. */
  function Muxed(c: Counters, ops: seq<Op>): (r: seq<seq<byte>>)
    decreases |ops|
  {
    if ops == [] then [] else Emitted(c, ops[0]) + Muxed(Advanced(c, ops[0]), ops[1..])
  }

  /** The pieces a PID gets from it. */
  function StreamOn(pid: Pid, ops: seq<Op>, cc: Counter): (r: seq<Piece>)
    decreases |ops|
  {
    if ops == [] then []
    else AddsTo(pid, cc, ops[0]) + StreamOn(pid, ops[1..], CounterAfter(pid, cc, ops[0]))
  }

  lemma JoinChained(a: seq<Piece>, b: seq<Piece>, cc: Counter, next: Counter)
    requires Starts(b, next) && Spans(a, cc, next)
    ensures Starts(a + b, cc)
  {
    if a == [] {
      assert a + b == b;
    } else {
      ChainedConcat(a, b);
      assert (a + b)[0] == a[0];
    }
  }

  /** A chained stream whose first packet, if any, starts a PES packet with counter `cc`. */
  predicate Starts(xs: seq<Piece>, cc: Counter)
  {
    Chained(xs) && (xs == [] || Opens(xs, cc))
  }

  /** Whole PES packets from counter `cc` to counter `next`, or nothing. */
  predicate Spans(xs: seq<Piece>, cc: Counter, next: Counter)
  {
    if xs == [] then next == cc else Chained(xs) && Opens(xs, cc) && Closes(xs, next)
  }

  lemma AddsShape(pid: Pid, cc: Counter, op: Op)
    ensures Spans(AddsTo(pid, cc, op), cc, CounterAfter(pid, cc, op))
  {
    if op.Send? && op.pid == pid {
      PiecesOfShape(op.af, op.whole, cc);
    }
  }

  /** Over every run, a PID's counters move on by one per packet, across PES packets too, and
      each PES packet is carried whole and in order. */
  lemma {:induction false} StreamChained(pid: Pid, ops: seq<Op>, cc: Counter)
    ensures Starts(StreamOn(pid, ops, cc), cc)
    decreases |ops|
  {
    if ops != [] {
      var next := CounterAfter(pid, cc, ops[0]);
      StreamChained(pid, ops[1..], next);
      AddsShape(pid, cc, ops[0]);
      JoinChained(AddsTo(pid, cc, ops[0]), StreamOn(pid, ops[1..], next), cc, next);
    }
  }
}
