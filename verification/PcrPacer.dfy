/** The file server's PCR walker (`PcrPacer::send`): it cuts a chunk after each packet that
    carries a PCR and holds each cut until the PCR's offset from its anchor has elapsed.
    Instants are microseconds; the clock is a parameter. */
module PcrPacing {
  import opened Bytes
  import opened TsPacket

  const ROLLOVER := 27_000_000

  // ---- slicing -----------------------------------------------------------------------

  predicate HasPcr(s: seq<byte>, i: nat)
    requires i + PACKET <= |s|
  {
    ReadPcr(s[i..i + PACKET]).Some?
  }

  /** The slices sent once everything before `from` has been, the walk being at `i`. */
  function SlicesFrom(s: seq<byte>, from: nat, i: nat): (r: seq<seq<byte>>)
    requires from <= i && from <= |s|
    decreases |s| - i
  {
    if i + PACKET > |s| then (if from < |s| then [s[from..]] else [])
    else if HasPcr(s, i) then [s[from..i + PACKET]] + SlicesFrom(s, i + PACKET, i + PACKET)
    else SlicesFrom(s, from, i + PACKET)
  }

  /** Cut into packets from its first byte on, `s` has none with a PCR. */
  predicate NoPcr(s: seq<byte>)
    decreases |s|
  {
    |s| < PACKET || (!HasPcr(s, 0) && NoPcr(s[PACKET..]))
  }

  /** `s` is whole packets, of which the last and no other carries a PCR. */
  predicate EndsAtPcr(s: seq<byte>)
    decreases |s|
  {
    && |s| >= PACKET
    && (if |s| == PACKET then HasPcr(s, 0) else !HasPcr(s, 0) && EndsAtPcr(s[PACKET..]))
  }

  function Concat(xs: seq<seq<byte>>): (s: seq<byte>)
  {
    if xs == [] then [] else xs[0] + Concat(xs[1..])
  }

  /** The cut a chunk must have: all but the last slice end at their only PCR packet, and the
      last does too or holds no PCR at all. */
  predicate CutAtPcrs(xs: seq<seq<byte>>)
  {
    xs == [] || (xs[0] != [] && (EndsAtPcr(xs[0]) || (NoPcr(xs[0]) && |xs| == 1)) && CutAtPcrs(xs[1..]))
  }

  // ---- anchoring ---------------------------------------------------------------------

  datatype Pace = Unanchored | Anchored(first: u64, last: u64, start: nat)

  /** A packet carrying a PCR, seen when the clock reads `now`. */
  datatype Tick = Tick(pcr: u64, now: nat)

  predicate RollsOver(last: u64, pcr: u64)
  {
    pcr < last && last - pcr > ROLLOVER
  }

  function Anchor(p: Pace, t: Tick): (r: Pace)
    ensures r.Anchored? && r.last == t.pcr
  {
    if p.Unanchored? || RollsOver(p.last, t.pcr) then Anchored(t.pcr, t.pcr, t.now)
    else Anchored(p.first, t.pcr, p.start)
  }

  /** When the packet may go: 64-bit wrapping subtraction, then whole microseconds. */
  function Deadline(p: Pace): (d: nat)
    requires p.Anchored?
  {
    p.start + (p.last - p.first) % U64_MOD / 27
  }

  function Paced(p: Pace, ts: seq<Tick>): (r: Pace)
    ensures ts != [] ==> r.Anchored?
    decreases |ts|
  {
    if ts == [] then p else Paced(Anchor(p, ts[0]), ts[1..])
  }

  function Deadlines(p: Pace, ts: seq<Tick>): (r: seq<nat>)
    ensures |r| == |ts|
    decreases |ts|
  {
    if ts == [] then [] else [Deadline(Anchor(p, ts[0]))] + Deadlines(Anchor(p, ts[0]), ts[1..])
  }

  /** The ticks of a chunk from packet offset `i` on; `clock` reads the time at an offset. */
  function TicksFrom(s: seq<byte>, i: nat, clock: nat -> nat): (r: seq<Tick>)
    decreases |s| - i
  {
    if i + PACKET > |s| then []
    else if HasPcr(s, i) then [Tick(ReadPcr(s[i..i + PACKET]).value, clock(i))] + TicksFrom(s, i + PACKET, clock)
    else TicksFrom(s, i + PACKET, clock)
  }

  lemma {:induction false} PacedStep(p: Pace, ts: seq<Tick>, k: nat)
    requires k < |ts|
    ensures Paced(p, ts[..k + 1]) == Anchor(Paced(p, ts[..k]), ts[k])
    ensures Deadlines(p, ts)[k] == Deadline(Paced(p, ts[..k + 1]))
    decreases k
  {
    var q := Anchor(p, ts[0]);
    assert ts[..k + 1][1..] == ts[1..][..k];
    if k > 0 {
      assert ts[..k][1..] == ts[1..][..k - 1];
      PacedStep(q, ts[1..], k - 1);
    }
  }

  /** The walk at packet offset `i`, everything before `from` sent: what is left of all the
      slices and all the ticks is what the rest of the chunk gives. */
  ghost predicate Walking(s: seq<byte>, clock: nat -> nat, all: seq<seq<byte>>, ticks: seq<Tick>,
                          from: nat, i: nat, sent: seq<seq<byte>>)
  {
    && from <= i && from <= |s|
    && all == sent + SlicesFrom(s, from, i)
    && |sent| <= |ticks| && ticks[|sent|..] == TicksFrom(s, i, clock)
  }

  /** One packet with a PCR: its slice goes, its tick is the next one. */
  lemma WalkPcr(s: seq<byte>, clock: nat -> nat, all: seq<seq<byte>>, ticks: seq<Tick>,
                from: nat, i: nat, sent: seq<seq<byte>>)
    requires Walking(s, clock, all, ticks, from, i, sent) && i + PACKET <= |s| && HasPcr(s, i)
    ensures |sent| < |ticks| && |sent| < |all|
    ensures ticks[|sent|] == Tick(ReadPcr(s[i..i + PACKET]).value, clock(i))
    ensures Walking(s, clock, all, ticks, i + PACKET, i + PACKET, sent + [s[from..i + PACKET]])
  {
    assert ticks[|sent|] == ticks[|sent|..][0];
    assert ticks[|sent| + 1..] == ticks[|sent|..][1..];
    assert sent + ([s[from..i + PACKET]] + SlicesFrom(s, i + PACKET, i + PACKET))
        == sent + [s[from..i + PACKET]] + SlicesFrom(s, i + PACKET, i + PACKET);
  }

  lemma WalkPlain(s: seq<byte>, clock: nat -> nat, all: seq<seq<byte>>, ticks: seq<Tick>,
                  from: nat, i: nat, sent: seq<seq<byte>>)
    requires Walking(s, clock, all, ticks, from, i, sent) && i + PACKET <= |s| && !HasPcr(s, i)
    ensures Walking(s, clock, all, ticks, from, i + PACKET, sent)
  {
  }

  lemma WalkDone(s: seq<byte>, clock: nat -> nat, all: seq<seq<byte>>, ticks: seq<Tick>,
                 from: nat, i: nat, sent: seq<seq<byte>>)
    requires Walking(s, clock, all, ticks, from, i, sent) && i + PACKET > |s|
    ensures |sent| == |ticks| && all == sent + if from < |s| then [s[from..]] else []
  {
  }

  /** What a call ends with. The sender takes the first `takes` slices it is given and refuses
      the next, which ends the call with the anchor already moved. */
  ghost predicate Ends(p: Pace, all: seq<seq<byte>>, ticks: seq<Tick>, takes: nat,
                       q: Pace, sent: seq<seq<byte>>, due: seq<nat>, ok: bool)
  {
    && (ok <==> |all| <= takes)
    && sent == (if ok then all else all[..takes])
    && q == Paced(p, ticks[..if takes < |ticks| then takes + 1 else |ticks|])
    && due == Deadlines(p, ticks)[..if takes < |ticks| then takes else |ticks|]
  }

  /** The slices and deadlines so far, before tick number `|sent|`. */
  ghost predicate SoFar(p: Pace, ticks: seq<Tick>, takes: nat, q: Pace, sent: seq<seq<byte>>, due: seq<nat>)
  {
    |sent| <= takes && |sent| <= |ticks| && q == Paced(p, ticks[..|sent|]) && due == Deadlines(p, ticks)[..|sent|]
  }

  lemma EndsRefused(s: seq<byte>, clock: nat -> nat, all: seq<seq<byte>>, ticks: seq<Tick>, from: nat, i: nat,
                    p: Pace, takes: nat, q: Pace, sent: seq<seq<byte>>, due: seq<nat>)
    requires SoFar(p, ticks, takes, q, sent, due) && Walking(s, clock, all, ticks, from, i, sent)
    requires |sent| == takes < |ticks| && |sent| < |all|
    ensures Ends(p, all, ticks, takes, Anchor(q, ticks[|sent|]), sent, due, false)
  {
    PacedStep(p, ticks, |sent|);
  }

  lemma SoFarStep(p: Pace, ticks: seq<Tick>, takes: nat, q: Pace, sent: seq<seq<byte>>, due: seq<nat>, slice: seq<byte>)
    requires SoFar(p, ticks, takes, q, sent, due) && |sent| < takes && |sent| < |ticks|
    ensures var q' := Anchor(q, ticks[|sent|]); SoFar(p, ticks, takes, q', sent + [slice], due + [Deadline(q')])
  {
    PacedStep(p, ticks, |sent|);
  }

  lemma EndsTail(p: Pace, all: seq<seq<byte>>, ticks: seq<Tick>, takes: nat,
                 q: Pace, sent: seq<seq<byte>>, due: seq<nat>, tail: seq<seq<byte>>)
    requires SoFar(p, ticks, takes, q, sent, due) && |sent| == |ticks| && all == sent + tail && |tail| <= 1
    ensures |all| <= takes ==> Ends(p, all, ticks, takes, q, all, due, true)
    ensures |all| > takes ==> Ends(p, all, ticks, takes, q, sent, due, false)
  {
    assert ticks[..|ticks|] == ticks;
  }

  // ---- the walker --------------------------------------------------------------------

  class PcrPacer {
    var first: Option<u64>
    var last: Option<u64>
    var start: Option<nat>

    ghost predicate Valid()
      reads this
    {
      first.Some? == last.Some? == start.Some?
    }

    ghost function View(): (p: Pace)
      requires Valid()
      reads this
    {
      if first.None? then Unanchored else Anchored(first.value, last.value, start.value)
    }

    constructor ()
      ensures Valid() && View() == Unanchored
    {
      first, last, start := None, None, None;
    }

    /** The anchor after one PCR, and when its packet is due. */
    method See(t: Tick) returns (due: nat)
      requires Valid()
      modifies this
      ensures Valid() && View() == Anchor(old(View()), t) && due == Deadline(View())
    {
      if last.Some? && RollsOver(last.value, t.pcr) {
        first, start := Some(t.pcr), Some(t.now);
      }
      if first.None? {
        first, start := Some(t.pcr), Some(t.now);
      }
      last := Some(t.pcr);
      due := start.value + (t.pcr - first.value) % U64_MOD / 27;
    }

    /** `send` */
    method Send(s: seq<byte>, clock: nat -> nat, takes: nat) returns (sent: seq<seq<byte>>, due: seq<nat>, ok: bool)
      requires Valid()
      modifies this
      ensures Valid()
      ensures Ends(old(View()), SlicesFrom(s, 0, 0), TicksFrom(s, 0, clock), takes, View(), sent, due, ok)
    {
      ghost var p, all, ticks := View(), SlicesFrom(s, 0, 0), TicksFrom(s, 0, clock);
      var from: nat, i: nat := 0, 0;
      sent, due := [], [];
      while i + PACKET <= |s|
        invariant Valid() && SoFar(p, ticks, takes, View(), sent, due)
        invariant Walking(s, clock, all, ticks, from, i, sent)
        decreases |s| - i
      {
        if HasPcr(s, i) {
          WalkPcr(s, clock, all, ticks, from, i, sent);
          ghost var q := View();
          var d := See(Tick(ReadPcr(s[i..i + PACKET]).value, clock(i)));
          if |sent| == takes {
            EndsRefused(s, clock, all, ticks, from, i, p, takes, q, sent, due);
            return sent, due, false;
          }
          SoFarStep(p, ticks, takes, q, sent, due, s[from..i + PACKET]);
          due := due + [d];
          sent := sent + [s[from..i + PACKET]];
          from := i + PACKET;
        } else {
          WalkPlain(s, clock, all, ticks, from, i, sent);
        }
        i := i + PACKET;
      }
      WalkDone(s, clock, all, ticks, from, i, sent);
      EndsTail(p, all, ticks, takes, View(), sent, due, if from < |s| then [s[from..]] else []);
      if from < |s| {
        if |sent| == takes {
          return sent, due, false;
        }
        sent := sent + [s[from..]];
      }
      ok := true;
    }
  }
}
