/** What the PCR walker conserves and when its deadlines are right. */
module PcrPacerLaws {
  import opened Bytes
  import opened TsPacket
  import opened PcrPacing

  // ---- slices ------------------------------------------------------------------------

  lemma {:induction false} SlicesConcat(s: seq<byte>, from: nat, i: nat)
    requires from <= i && from <= |s|
    ensures Concat(SlicesFrom(s, from, i)) == s[from..]
    decreases |s| - i
  {
    if i + PACKET > |s| {
      if from < |s| {
        assert [s[from..]][1..] == [];
      }
    } else if HasPcr(s, i) {
      SlicesConcat(s, i + PACKET, i + PACKET);
      assert s[from..] == s[from..i + PACKET] + s[i + PACKET..];
    } else {
      SlicesConcat(s, from, i + PACKET);
    }
  }

  /** Whole packets without a PCR in front of a slice do not change what it ends with. */
  predicate Skipped(s: seq<byte>, from: nat, i: nat)
    requires from <= i <= |s|
    decreases i - from
  {
    from == i || (from + PACKET <= i && !HasPcr(s, from) && Skipped(s, from + PACKET, i))
  }

  lemma {:induction false} SkippedStep(s: seq<byte>, from: nat, i: nat)
    requires from <= i && i + PACKET <= |s| && Skipped(s, from, i) && !HasPcr(s, i)
    ensures Skipped(s, from, i + PACKET)
    decreases i - from
  {
    if from < i {
      SkippedStep(s, from + PACKET, i);
    }
  }

  lemma {:induction false} SkippedEnds(s: seq<byte>, from: nat, i: nat)
    requires from <= i && i + PACKET <= |s| && Skipped(s, from, i) && HasPcr(s, i)
    ensures EndsAtPcr(s[from..i + PACKET])
    decreases i - from
  {
    var t := s[from..i + PACKET];
    assert t[0..PACKET] == s[from..from + PACKET];
    if from < i {
      SkippedEnds(s, from + PACKET, i);
      assert t[PACKET..] == s[from + PACKET..i + PACKET];
    }
  }

  lemma {:induction false} SkippedTail(s: seq<byte>, from: nat, i: nat)
    requires from <= i <= |s| && Skipped(s, from, i) && |s| < i + PACKET
    ensures NoPcr(s[from..])
    decreases i - from
  {
    var t := s[from..];
    if from < i {
      SkippedTail(s, from + PACKET, i);
      assert t[0..PACKET] == s[from..from + PACKET];
      assert t[PACKET..] == s[from + PACKET..];
    }
  }

  lemma {:induction false} SlicesCut(s: seq<byte>, from: nat, i: nat)
    requires from <= i <= |s| && Skipped(s, from, i)
    ensures CutAtPcrs(SlicesFrom(s, from, i))
    decreases |s| - i
  {
    if i + PACKET > |s| {
      SkippedTail(s, from, i);
    } else if HasPcr(s, i) {
      SkippedEnds(s, from, i);
      SlicesCut(s, i + PACKET, i + PACKET);
      CutCons(s[from..i + PACKET], SlicesFrom(s, i + PACKET, i + PACKET));
    } else {
      SkippedStep(s, from, i);
      SlicesCut(s, from, i + PACKET);
    }
  }

  lemma CutCons(x: seq<byte>, xs: seq<seq<byte>>)
    requires EndsAtPcr(x) && CutAtPcrs(xs)
    ensures CutAtPcrs([x] + xs)
  {
    assert ([x] + xs)[1..] == xs;
  }

  /** For every chunk, whole packets or not: the slices are the chunk, each but the last ends
      at its only PCR packet, and the last does too or has none. */
  lemma SlicesExact(s: seq<byte>)
    ensures Concat(SlicesFrom(s, 0, 0)) == s && CutAtPcrs(SlicesFrom(s, 0, 0))
  {
    SlicesConcat(s, 0, 0);
    SlicesCut(s, 0, 0);
  }

  // ---- and there is only one such cut --------------------------------------------------

  /** A slice ending at its PCR is what any cut of the same bytes must open with. */
  lemma {:induction false} EndsAtPcrUnique(a: seq<byte>, b: seq<byte>, s: seq<byte>)
    requires EndsAtPcr(a) && a <= s && b <= s && (EndsAtPcr(b) || (NoPcr(b) && b == s))
    ensures a == b
    decreases |a|
  {
    assert |b| >= PACKET;
    assert a[0..PACKET] == s[0..PACKET] == b[0..PACKET];
    if |a| > PACKET && |b| > PACKET {
      var a', b', s' := a[PACKET..], b[PACKET..], s[PACKET..];
      assert a' <= s' && b' <= s';
      EndsAtPcrUnique(a', b', s');
      assert a == a[..PACKET] + a' && b == b[..PACKET] + b' && a[..PACKET] == b[..PACKET];
    }
  }

  lemma {:induction false} CutUnique(xs: seq<seq<byte>>, ys: seq<seq<byte>>)
    requires CutAtPcrs(xs) && CutAtPcrs(ys) && Concat(xs) == Concat(ys)
    ensures xs == ys
    decreases |xs|
  {
    var s := Concat(xs);
    if xs == [] || ys == [] {
    } else {
      assert xs[0] <= s && ys[0] <= s;
      FirstSlice(xs, ys);
      assert Concat(xs[1..]) == s[|xs[0]|..] == Concat(ys[1..]);
      CutUnique(xs[1..], ys[1..]);
      assert xs == [xs[0]] + xs[1..] && ys == [ys[0]] + ys[1..];
    }
  }

  lemma FirstSlice(xs: seq<seq<byte>>, ys: seq<seq<byte>>)
    requires xs != [] && ys != [] && CutAtPcrs(xs) && CutAtPcrs(ys) && Concat(xs) == Concat(ys)
    ensures xs[0] == ys[0]
  {
    var s := Concat(xs);
    assert |xs| == 1 ==> xs[0] == s by { assert |xs| == 1 ==> Concat(xs[1..]) == []; }
    assert |ys| == 1 ==> ys[0] == s by { assert |ys| == 1 ==> Concat(ys[1..]) == []; }
    if EndsAtPcr(xs[0]) {
      EndsAtPcrUnique(xs[0], ys[0], s);
    } else if EndsAtPcr(ys[0]) {
      EndsAtPcrUnique(ys[0], xs[0], s);
    }
  }

  // ---- deadlines -----------------------------------------------------------------------

  /** The exact offset, in microseconds. */
  function Offset(p: Pace): (r: real)
    requires p.Anchored?
  {
    (p.last - p.first) as real / 27.0
  }

  /** Never late by a microsecond, never early. */
  predicate Exact(p: Pace)
    requires p.Anchored?
  {
    0.0 <= Offset(p) - (Deadline(p) - p.start) as real < 1.0
  }

  lemma ExactAtOrAfterAnchor(p: Pace)
    requires p.Anchored? && p.first <= p.last
    ensures Exact(p)
  {
    var d := p.last - p.first;
    assert d % U64_MOD == d;
    var q := d / 27;
    assert d == 27 * q + d % 27;
    assert d as real / 27.0 == q as real + (d % 27) as real / 27.0;
  }

  /** A PCR below the anchor that did not move it: the subtraction wraps, and the packet is
      held for thousands of years. */
  lemma HeldBelowAnchor(p: Pace)
    requires p.Anchored? && p.last < p.first
    ensures !Exact(p) && Deadline(p) - p.start == (U64_MOD - (p.first - p.last)) / 27
  {
    var d := p.last - p.first;
    assert d % U64_MOD == d + U64_MOD;
  }

  lemma ExactIff(p: Pace)
    requires p.Anchored?
    ensures Exact(p) <==> p.first <= p.last
  {
    if p.first <= p.last {
      ExactAtOrAfterAnchor(p);
    } else {
      HeldBelowAnchor(p);
    }
  }

  /** The lowest PCR that keeps the run on schedule, read off the PCRs alone. */
  predicate StaysAbove(first: u64, last: u64, ts: seq<Tick>)
    decreases |ts|
  {
    ts == [] || (if RollsOver(last, ts[0].pcr) then StaysAbove(ts[0].pcr, ts[0].pcr, ts[1..])
                 else first <= ts[0].pcr && StaysAbove(first, ts[0].pcr, ts[1..]))
  }

  predicate AllExact(p: Pace, ts: seq<Tick>)
    decreases |ts|
  {
    ts == [] || (Exact(Anchor(p, ts[0])) && AllExact(Anchor(p, ts[0]), ts[1..]))
  }

  lemma {:induction false} AnchoredExactIff(p: Pace, ts: seq<Tick>)
    requires p.Anchored?
    ensures AllExact(p, ts) <==> StaysAbove(p.first, p.last, ts)
    decreases |ts|
  {
    if ts != [] {
      ExactIff(Anchor(p, ts[0]));
      AnchoredExactIff(Anchor(p, ts[0]), ts[1..]);
    }
  }

  /** Over every run, from the first packet or from an anchor: all deadlines are right exactly
      when no PCR falls below its anchor without stepping back by more than a second. */
  lemma RunExactIff(p: Pace, ts: seq<Tick>)
    ensures AllExact(p, ts) <==>
            if p.Anchored? then StaysAbove(p.first, p.last, ts)
            else ts == [] || StaysAbove(ts[0].pcr, ts[0].pcr, ts[1..])
  {
    if p.Anchored? {
      AnchoredExactIff(p, ts);
    } else if ts != [] {
      ExactIff(Anchor(p, ts[0]));
      AnchoredExactIff(Anchor(p, ts[0]), ts[1..]);
    }
  }

  /** Each PCR is at or after the one before, or more than a second behind it. */
  predicate Rising(last: u64, ts: seq<Tick>)
    decreases |ts|
  {
    ts == [] || ((last <= ts[0].pcr || RollsOver(last, ts[0].pcr)) && Rising(ts[0].pcr, ts[1..]))
  }

  /** A stream that only moves forward, save for rollovers, is paced exactly throughout. */
  lemma {:induction false} RisingIsExact(p: Pace, ts: seq<Tick>)
    requires ts == [] || Rising(if p.Anchored? then p.last else ts[0].pcr, ts)
    requires p.Anchored? ==> p.first <= p.last
    ensures AllExact(p, ts)
    decreases |ts|
  {
    if ts != [] {
      ExactIff(Anchor(p, ts[0]));
      RisingIsExact(Anchor(p, ts[0]), ts[1..]);
    }
  }

  /** One PCR a single tick behind the first stalls the server for good. */
  lemma SmallStepBackStalls(now: nat, later: nat)
    ensures var ts := [Tick(27_000_000, now), Tick(26_999_999, later)];
            Deadlines(Unanchored, ts) == [now, now + 683_212_743_470_724_133]
  {
    var ts := [Tick(27_000_000, now), Tick(26_999_999, later)];
    var p := Anchor(Unanchored, ts[0]);
    assert ts[1..] == [ts[1]];
    HeldBelowAnchor(Anchor(p, ts[1]));
    assert ts[1..][1..] == [];
  }
}
