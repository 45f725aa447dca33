/** A record travels twice, in the SEI of its frame and over the `klv` data channel. Both
    copies reach the queue under one key, and the viewer gets the record once. */
module KlvCarriages {
  import opened Bytes
  import opened KlvDelivery
  import opened KlvDeliveryLaws
  import SeiMessage
  import KlvExtract

  const DC_VERSION: byte := 1
  const DC_HEADER := 1 + 4 + 8

  /** The data-channel body the server sends (`klv_body`). */
  function MessageBody(rtp: u32, rec: SeiMessage.KlvRecord): (b: seq<byte>)
    ensures |b| == DC_HEADER + |rec.bytes|
  {
    [DC_VERSION] + BigEndian(rtp, 4) + BigEndian(rec.pts, 8) + rec.bytes
  }

  /** `parseKlvMessage` */
  function ParseKlvMessage(b: seq<byte>): (r: Option<Record>)
  {
    if |b| < DC_HEADER || b[0] != DC_VERSION then None
    else
      FromBigEndianRoundTrip(b[1..5]);
      FromBigEndianRoundTrip(b[5..13]);
      Pow256Words();
      Some(Record(Some(FromBigEndian(b[1..5])), FromBigEndian(b[5..13]), b[13..], Dc))
  }

  /** What the player pushes for a record found in the frame with timestamp `rtp`. */
  function SeiCopy(rtp: u32, rec: SeiMessage.KlvRecord): Record { Record(Some(rtp), rec.pts, rec.bytes, Sei) }

  function DcCopy(rtp: u32, rec: SeiMessage.KlvRecord): Record { Record(Some(rtp), rec.pts, rec.bytes, Dc) }

  /** A body cut into its fields, and put together from them. */
  lemma Fields(b: seq<byte>, v: byte, ts: seq<byte>, pts: seq<byte>, rest: seq<byte>)
    requires |ts| == 4 && |pts| == 8
    ensures b == [v] + ts + pts + rest
       <==> |b| >= DC_HEADER && b[0] == v && b[1..5] == ts && b[5..13] == pts && b[13..] == rest
  {
    if |b| >= DC_HEADER && b[0] == v && b[1..5] == ts && b[5..13] == pts && b[13..] == rest {
      assert b == [b[0]] + b[1..5] + b[5..13] + b[13..];
    }
  }

  lemma WordExact(s: seq<byte>, v: u32)
    requires |s| == 4
    ensures s == BigEndian(v, 4) <==> FromBigEndian(s) == v
  {
    Pow256Words();
    BigEndianRoundTrip(v, 4);
    FromBigEndianRoundTrip(s);
  }

  lemma LongExact(s: seq<byte>, v: u64)
    requires |s| == 8
    ensures s == BigEndian(v, 8) <==> FromBigEndian(s) == v
  {
    Pow256Words();
    BigEndianRoundTrip(v, 8);
    FromBigEndianRoundTrip(s);
  }

  /** The parser accepts exactly the bodies the server writes, and reads them back. */
  lemma MessageExact(b: seq<byte>, rtp: u32, rec: SeiMessage.KlvRecord)
    ensures ParseKlvMessage(b) == Some(DcCopy(rtp, rec)) <==> b == MessageBody(rtp, rec)
  {
    Fields(b, DC_VERSION, BigEndian(rtp, 4), BigEndian(rec.pts, 8), rec.bytes);
    if |b| >= DC_HEADER {
      WordExact(b[1..5], rtp);
      LongExact(b[5..13], rec.pts);
    }
  }

  // ---- deliveries of one key ---------------------------------------------------------

  /** The records of `recs` with key `k`, in order. */
  ghost function Of(k: Key, recs: seq<Record>): (r: seq<Record>)
  {
    if recs == [] then [] else Of(k, recs[..|recs| - 1]) + if KeyOf(recs[|recs| - 1]) == k then [recs[|recs| - 1]] else []
  }

  lemma OfSnoc(k: Key, recs: seq<Record>, r: Record)
    ensures Of(k, recs + [r]) == Of(k, recs) + if KeyOf(r) == k then [r] else []
  {
    assert (recs + [r])[..|recs|] == recs;
  }

  /** Emitting records of other keys neither delivers nor remembers `k`. */
  lemma {:induction false} OthersLeaveKey(log: Log, recs: seq<Record>, k: Key)
    requires k !in log.seen && forall r | r in recs :: KeyOf(r) != k
    ensures var l := EmitAll(true, log, recs);
            k !in l.seen && Of(k, l.out) == Of(k, log.out)
    decreases |recs|
  {
    if recs != [] {
      OfSnoc(k, log.out, recs[0]);
      OthersLeaveKey(Emit(true, log, recs[0]), recs[1..], k);
    }
  }

  /** A key delivered within the last 4096 deliveries is not delivered again. */
  lemma {:induction false} KeySuppressed(log: Log, recs: seq<Record>, k: Key, at: nat)
    requires Remembers(log) && at < |log.out| && KeyOf(log.out[at]) == k
    requires |log.out| - at + |recs| <= SEEN_KEYS_MAX
    ensures Of(k, EmitAll(true, log, recs).out) == Of(k, log.out)
    decreases |recs|
  {
    if recs != [] {
      var first := if |log.out| > SEEN_KEYS_MAX then |log.out| - SEEN_KEYS_MAX else 0;
      assert log.seen[at - first] == Keys(log.out)[at] == k;
      OfSnoc(k, log.out, recs[0]);
      EmitRemembers(log, recs[0]);
      KeySuppressed(Emit(true, log, recs[0]), recs[1..], k, at);
    }
  }

  /** The first record of `recs` with key `k`. */
  ghost function First(k: Key, recs: seq<Record>): (r: Record)
    requires exists x :: x in recs && KeyOf(x) == k
    ensures r in recs && KeyOf(r) == k
  {
    if KeyOf(recs[0]) == k then recs[0]
    else
      var x :| x in recs && KeyOf(x) == k;
      assert x in recs[1..];
      First(k, recs[1..])
  }

  /** A list of at most 4096 records delivers a key not yet remembered once: its first copy. */
  lemma {:induction false} ListDeliversOnce(log: Log, recs: seq<Record>, k: Key)
    requires Remembers(log) && k !in log.seen && |recs| <= SEEN_KEYS_MAX
    requires exists x :: x in recs && KeyOf(x) == k
    ensures Of(k, EmitAll(true, log, recs).out) == Of(k, log.out) + [First(k, recs)]
    decreases |recs|
  {
    var l := Emit(true, log, recs[0]);
    EmitOnce(log, recs[0], k);
    if KeyOf(recs[0]) == k {
      KeySuppressed(l, recs[1..], k, |log.out|);
    } else {
      var x :| x in recs && KeyOf(x) == k;
      assert x in recs[1..];
      ListDeliversOnce(l, recs[1..], k);
    }
  }

  /** One emission before a fresh key has been delivered. */
  lemma EmitOnce(log: Log, r: Record, k: Key)
    requires Remembers(log) && k !in log.seen
    ensures var l := Emit(true, log, r);
            && Remembers(l)
            && (KeyOf(r) == k ==> l.out == log.out + [r] && Of(k, l.out) == Of(k, log.out) + [r])
            && (KeyOf(r) != k ==> k !in l.seen && Of(k, l.out) == Of(k, log.out))
  {
    EmitRemembers(log, r);
    OfSnoc(k, log.out, r);
    hide Remembers, Of, KeyOf;
  }

  /** Within a frame the SEI copy of a key is the first copy, when there is one. */
  lemma SeiCopyFirst(recs: seq<Record>, x: Record)
    requires x in recs && x.via == Sei
    ensures x in FrameOrder(recs) && First(KeyOf(x), FrameOrder(recs)).via == Sei
  {
    OnlyMembers(Sei, recs, x);
    FirstInPrefix(KeyOf(x), Only(Sei, recs), Only(Dc, recs), x);
    OnlyVia(Sei, recs);
  }

  lemma {:induction false} OnlyMembers(via: Via, recs: seq<Record>, x: Record)
    ensures x in Only(via, recs) <==> x in recs && x.via == via
  {
    if recs != [] { OnlyMembers(via, recs[1..], x); }
  }

  lemma {:induction false} OnlyVia(via: Via, recs: seq<Record>)
    ensures forall x | x in Only(via, recs) :: x.via == via
  {
    if recs != [] { OnlyVia(via, recs[1..]); }
  }

  lemma {:induction false} FirstInPrefix(k: Key, a: seq<Record>, b: seq<Record>, x: Record)
    requires x in a && KeyOf(x) == k
    ensures x in a + b && First(k, a + b) in a
    decreases |a|
  {
    assert (a + b)[0] == a[0];
    if KeyOf(a[0]) != k {
      assert (a + b)[1..] == a[1..] + b;
      FirstInPrefix(k, a[1..], b, x);
    }
  }

  lemma OrderedLength(recs: seq<Record>)
    ensures |FrameOrder(recs)| == |recs|
  {
    FrameOrderKeeps(recs);
    assert |multiset(FrameOrder(recs))| == |multiset(recs)|;
  }

  lemma OthersByTimestamp(f: Frame, k: Key)
    requires Bound(f) && Some(f.ts) != k.rtp
    ensures forall r | r in FrameOrder(f.recs) :: KeyOf(r) != k
  {
    FrameOrderKeeps(f.recs);
    forall r | r in FrameOrder(f.recs) ensures KeyOf(r) != k {
      assert r in multiset(FrameOrder(f.recs));
      assert r in f.recs;
    }
  }

  /** After its own frame a key is not delivered by frames bound to other timestamps. */
  lemma {:induction false} LaterFrames(log: Log, frames: seq<Frame>, k: Key)
    requires forall f | f in frames :: Bound(f) && Some(f.ts) != k.rtp
    ensures Of(k, EmitFrames(true, log, frames).out) == Of(k, log.out)
    decreases |frames|
  {
    if frames != [] {
      var recs := FrameOrder(frames[0].recs);
      OthersByTimestamp(frames[0], k);
      OthersDeliverNothing(log, recs, k);
      LaterFrames(EmitAll(true, log, recs), frames[1..], k);
    }
  }

  lemma {:induction false} OthersDeliverNothing(log: Log, recs: seq<Record>, k: Key)
    requires forall r | r in recs :: KeyOf(r) != k
    ensures Of(k, EmitAll(true, log, recs).out) == Of(k, log.out)
    decreases |recs|
  {
    if recs != [] {
      OfSnoc(k, log.out, recs[0]);
      OthersDeliverNothing(Emit(true, log, recs[0]), recs[1..], k);
    }
  }

  /** `after` has one more emission of the key than `before`: an SEI copy. */
  ghost predicate OneMore(k: Key, before: seq<Record>, after: seq<Record>)
  {
    exists y :: KeyOf(y) == k && y.via == Sei && Of(k, after) == Of(k, before) + [y]
  }

  lemma FirstFrameDelivers(log: Log, frames: seq<Frame>, x: Record)
    requires Remembers(log) && frames != [] && x in frames[0].recs && KeyOf(x) !in log.seen
    requires |frames[0].recs| <= SEEN_KEYS_MAX && x.via == Sei
    requires forall f | f in frames[1..] :: Bound(f) && Some(f.ts) != KeyOf(x).rtp
    ensures OneMore(KeyOf(x), log.out, EmitFrames(true, log, frames).out)
  {
    var k, recs := KeyOf(x), FrameOrder(frames[0].recs);
    SeiCopyFirst(frames[0].recs, x);
    OrderedLength(frames[0].recs);
    ListDeliversOnce(log, recs, k);
    LaterFrames(EmitAll(true, log, recs), frames[1..], k);
    assert KeyOf(First(k, recs)) == k;
  }

  /** Frames of different timestamps, each holding its own records. */
  ghost predicate Apart(frames: seq<Frame>)
  {
    && (forall f | f in frames :: Bound(f))
    && forall i, j | 0 <= i < j < |frames| :: frames[i].ts != frames[j].ts
  }

  lemma ApartTail(frames: seq<Frame>)
    requires Apart(frames) && frames != []
    ensures Apart(frames[1..]) && forall f | f in frames[1..] :: f.ts != frames[0].ts
  {
    var rest := frames[1..];
    forall i, j | 0 <= i < j < |rest| ensures rest[i].ts != rest[j].ts {
      assert frames[i + 1].ts != frames[j + 1].ts;
    }
    forall f | f in rest ensures f.ts != frames[0].ts {
      var i :| 0 <= i < |rest| && rest[i] == f;
      assert frames[i + 1] == f;
    }
  }

  /** A run of frames holding `f` delivers a fresh key of `f` once, as the SEI copy if any. */
  lemma {:induction false} FramesDeliverOnce(log: Log, frames: seq<Frame>, at: nat, k: Key)
    requires Remembers(log) && at < |frames| && HasSei(frames[at], k) && k !in log.seen
    requires |frames[at].recs| <= SEEN_KEYS_MAX && Apart(frames)
    ensures OneMore(k, log.out, EmitFrames(true, log, frames).out)
    decreases at
  {
    if at == 0 {
      FirstFrameHas(log, frames, k);
    } else {
      FirstFrameSkips(log, frames, at, k);
      FramesDeliverOnce(EmitAll(true, log, FrameOrder(frames[0].recs)), frames[1..], at - 1, k);
    }
  }

  lemma FirstFrameHas(log: Log, frames: seq<Frame>, k: Key)
    requires Remembers(log) && frames != [] && HasSei(frames[0], k) && k !in log.seen
    requires |frames[0].recs| <= SEEN_KEYS_MAX && Apart(frames)
    ensures OneMore(k, log.out, EmitFrames(true, log, frames).out)
  {
    ApartTail(frames);
    KeyTime(frames, 0, k);
    var x :| x in frames[0].recs && KeyOf(x) == k && x.via == Sei;
    FirstFrameDelivers(log, frames, x);
  }

  /** What the first frame leaves for the later one that holds the key. */
  lemma FirstFrameSkips(log: Log, frames: seq<Frame>, at: nat, k: Key)
    requires Remembers(log) && 0 < at < |frames| && HasSei(frames[at], k) && k !in log.seen && Apart(frames)
    ensures var l := EmitAll(true, log, FrameOrder(frames[0].recs));
            && Remembers(l) && k !in l.seen && Apart(frames[1..]) && frames[1..][at - 1] == frames[at]
            && (OneMore(k, l.out, EmitFrames(true, l, frames[1..]).out)
                ==> OneMore(k, log.out, EmitFrames(true, log, frames).out))
  {
    ApartTail(frames);
    KeyTime(frames, at, k);
    FrameLeavesKey(log, frames[0], k);
  }

  /** The frame holds an SEI record with the key. */
  ghost predicate HasSei(f: Frame, k: Key)
  {
    exists x :: x in f.recs && KeyOf(x) == k && x.via == Sei
  }

  lemma KeyTime(frames: seq<Frame>, at: nat, k: Key)
    requires Apart(frames) && at < |frames| && HasSei(frames[at], k)
    ensures k.rtp == Some(frames[at].ts) && Bound(frames[0]) && (at > 0 ==> frames[at].ts != frames[0].ts)
  {
    assert Bound(frames[at]);
  }

  /** A frame with another timestamp neither emits the key nor puts it in the window. */
  lemma FrameLeavesKey(log: Log, f: Frame, k: Key)
    requires Remembers(log) && Bound(f) && Some(f.ts) != k.rtp && k !in log.seen
    ensures var l := EmitAll(true, log, FrameOrder(f.recs));
            Remembers(l) && k !in l.seen && Of(k, l.out) == Of(k, log.out)
  {
    OthersByTimestamp(f, k);
    OthersLeaveKey(log, FrameOrder(f.recs), k);
    EmitAllRemembers(true, log, FrameOrder(f.recs));
  }

  // ---- the journey of one record -----------------------------------------------------

  lemma {:induction false} AddedRecs(pending: seq<Frame>, ts: u32, r: Record)
    ensures RecsAt(Added(pending, ts, r), ts) == RecsAt(pending, ts) + [r]
    ensures Frame(ts, RecsAt(pending, ts) + [r]) in Added(pending, ts, r)
  {
    if pending != [] && pending[0].ts != ts {
      AddedRecs(pending[1..], ts, r);
      assert Added(pending, ts, r)[1..] == Added(pending[1..], ts, r);
    }
  }

  /** The queue after both copies were pushed, in either order. */
  ghost function BothPushed(c: Config, s: State, rtp: u32, rec: SeiMessage.KlvRecord, seiFirst: bool): State {
    if seiFirst then Push(c, Push(c, s, SeiCopy(rtp, rec)), DcCopy(rtp, rec))
    else Push(c, Push(c, s, DcCopy(rtp, rec)), SeiCopy(rtp, rec))
  }

  lemma PushedWaits(c: Config, s: State, r: Record)
    requires Inv(c, s) && s.locked && r.rtp.Some?
    requires (exists f :: f in s.pending && f.ts == r.rtp.value) || |s.pending| < c.pendingMax
    ensures var s', t := Push(c, s, r), r.rtp.value;
            && Inv(c, s') && s'.locked && s'.log == s.log
            && Frame(t, RecsAt(s.pending, t) + [r]) in s'.pending
            && RecsAt(s'.pending, t) == RecsAt(s.pending, t) + [r]
  {
    PushWhileLocked(c, s, r);
    StepInv(c, s, PushOp(r));
    AddedRecs(s.pending, r.rtp.value, r);
    assert Step(c, s, PushOp(r)) == Push(c, s, r);
    AddedTidy(s.pending, r.rtp.value, r);
  }

  /** An SEI record waits in a frame that is due: the paint delivers its key once, and as an
      SEI copy, whatever else waits. */
  lemma PaintDeliversOnce(c: Config, s: State, f: Frame, x: Record, ts: u32)
    requires Inv(c, s) && c.dedupe && f in s.pending && RtpAtOrBefore(f.ts, ts)
    requires x in f.recs && x.via == Sei && KeyOf(x) !in s.log.seen && |f.recs| <= SEEN_KEYS_MAX
    ensures OneMore(KeyOf(x), s.log.out, Painted(c, s, ts).log.out)
  {
    var due := DueInOrder(s.pending, ts);
    DueInOrderExact(s.pending, ts);
    PaintedExact(c, s, ts);
    DueApart(c, s, ts);
    var at :| 0 <= at < |due| && due[at] == f;
    assert HasSei(due[at], KeyOf(x));
    FramesDeliverOnce(s.log, due, at, KeyOf(x));
  }

  lemma DueApart(c: Config, s: State, ts: u32)
    requires Inv(c, s)
    ensures Apart(DueInOrder(s.pending, ts))
  {
    DueInOrderExact(s.pending, ts);
  }

  // ---- every way out -----------------------------------------------------------------

  /** The operation makes the waiting frame go out: a paint at or after it, a flush, or a push
      for a new frame when as many as may wait do and this one has waited longest. */
  ghost predicate TakesOut(c: Config, s: State, f: Frame, op: Op)
  {
    match op
    case PaintedOp(ts) => RtpAtOrBefore(f.ts, ts)
    case FlushOp => true
    case PushOp(r) =>
      && s.pending != [] && f == s.pending[0] && |s.pending| == c.pendingMax
      && r.rtp.Some? && forall g | g in s.pending :: g.ts != r.rtp.value
    case ClearOp => false
  }

  lemma TidyApart(pending: seq<Frame>)
    requires Tidy(pending)
    ensures Apart(pending)
  {
  }

  lemma FlushDeliversOnce(c: Config, s: State, f: Frame, x: Record)
    requires Inv(c, s) && c.dedupe && f in s.pending
    requires x in f.recs && x.via == Sei && KeyOf(x) !in s.log.seen && |f.recs| <= SEEN_KEYS_MAX
    ensures OneMore(KeyOf(x), s.log.out, FlushAll(c, s).log.out)
  {
    TidyApart(s.pending);
    var at :| 0 <= at < |s.pending| && s.pending[at] == f;
    assert HasSei(s.pending[at], KeyOf(x));
    FramesDeliverOnce(s.log, s.pending, at, KeyOf(x));
  }

  lemma OneFrame(log: Log, f: Frame)
    ensures EmitFrames(true, log, [f]) == EmitAll(true, log, FrameOrder(f.recs))
  {
    var fs := [f];
    assert fs[1..] == [];
  }

  /** The backstop is no different. */
  lemma BackstopDeliversOnce(c: Config, s: State, f: Frame, x: Record, r: Record)
    requires Inv(c, s) && c.dedupe && f in s.pending && TakesOut(c, s, f, PushOp(r))
    requires x in f.recs && x.via == Sei && KeyOf(x) !in s.log.seen && |f.recs| <= SEEN_KEYS_MAX
    ensures OneMore(KeyOf(x), s.log.out, Push(c, s, r).log.out)
  {
    hide EmitAll, EmitFrames;
    PushWhileLocked(c, s, r);
    TidyApart(s.pending);
    var fs := [f];
    assert Bound(f) && HasSei(fs[0], KeyOf(x));
    FramesDeliverOnce(s.log, fs, 0, KeyOf(x));
    OneFrame(s.log, f);
  }

  /** Whatever makes a frame go out delivers a fresh key in its SEI once, as the SEI copy. */
  lemma StepDeliversOnce(c: Config, s: State, f: Frame, x: Record, op: Op)
    requires Inv(c, s) && c.dedupe && f in s.pending && TakesOut(c, s, f, op)
    requires x in f.recs && x.via == Sei && KeyOf(x) !in s.log.seen && |f.recs| <= SEEN_KEYS_MAX
    ensures OneMore(KeyOf(x), s.log.out, Step(c, s, op).log.out)
  {
    match op
    case PaintedOp(ts) => PaintDeliversOnce(c, s, f, x, ts);
    case FlushOp => FlushDeliversOnce(c, s, f, x);
    case PushOp(r) => BackstopDeliversOnce(c, s, f, x, r);
  }

  /** Frames with other timestamps leave the key alone. */
  lemma {:induction false} OtherFramesLeaveKey(log: Log, frames: seq<Frame>, k: Key)
    requires Remembers(log) && k !in log.seen && forall f | f in frames :: Bound(f) && Some(f.ts) != k.rtp
    ensures var l := EmitFrames(true, log, frames); k !in l.seen && Of(k, l.out) == Of(k, log.out)
    decreases |frames|
  {
    if frames != [] {
      FrameLeavesKey(log, frames[0], k);
      OtherFramesLeaveKey(EmitAll(true, log, FrameOrder(frames[0].recs)), frames[1..], k);
    }
  }

  lemma {:induction false} NotDueKeeps(pending: seq<Frame>, ts: u32, f: Frame)
    requires f in pending && !RtpAtOrBefore(f.ts, ts)
    ensures f in NotDue(pending, ts)
  {
    if f != pending[0] { NotDueKeeps(pending[1..], ts, f); }
  }

  lemma {:induction false} AddedKeeps(pending: seq<Frame>, ts: u32, r: Record, f: Frame)
    requires f in pending
    ensures f in Added(pending, ts, r) || Frame(f.ts, f.recs + [r]) in Added(pending, ts, r)
  {
    if f != pending[0] {
      AddedKeeps(pending[1..], ts, r, f);
      assert pending[0].ts == ts ==> f in Added(pending, ts, r);
    }
  }

  /** The frame still waits, perhaps with records added, and the key has not gone out. */
  ghost predicate StillWaits(k: Key, f: Frame, s: State, t: State)
  {
    && (exists g :: g in t.pending && g.ts == f.ts && f.recs <= g.recs)
    && k !in t.log.seen && Of(k, t.log.out) == Of(k, s.log.out)
  }

  lemma PaintKeepsWaiting(c: Config, s: State, f: Frame, k: Key, ts: u32)
    requires Inv(c, s) && c.dedupe && f in s.pending && k.rtp == Some(f.ts) && k !in s.log.seen && !RtpAtOrBefore(f.ts, ts)
    ensures StillWaits(k, f, s, Painted(c, s, ts))
  {
    PaintedExact(c, s, ts);
    DueInOrderExact(s.pending, ts);
    OtherFramesLeaveKey(s.log, DueInOrder(s.pending, ts), k);
    NotDueKeeps(s.pending, ts, f);
  }

  lemma EmitLeavesKey(log: Log, r: Record, k: Key)
    requires KeyOf(r) != k && k !in log.seen
    ensures var l := Emit(true, log, r); k !in l.seen && Of(k, l.out) == Of(k, log.out)
  {
    OfSnoc(k, log.out, r);
  }

  lemma BehindFirst(pending: seq<Frame>, f: Frame, g: Frame)
    requires Tidy(pending) && f in pending && f != pending[0]
    ensures f.ts != pending[0].ts && Bound(pending[0])
    ensures (pending + [g])[0] == pending[0] && f in (pending + [g])[1..]
  {
    var i :| 0 <= i < |pending| && pending[i] == f;
    assert (pending + [g])[1..][i - 1] == f;
  }

  lemma PushKeepsWaiting(c: Config, s: State, f: Frame, k: Key, r: Record)
    requires Inv(c, s) && c.dedupe && f in s.pending && k.rtp == Some(f.ts) && k !in s.log.seen && !TakesOut(c, s, f, PushOp(r))
    ensures StillWaits(k, f, s, Push(c, s, r))
  {
    hide EmitAll, Emit;
    if r.rtp.None? {
      EmitLeavesKey(s.log, r, k);
    } else {
      PushWhileLocked(c, s, r);
      if (exists g :: g in s.pending && g.ts == r.rtp.value) || |s.pending| < c.pendingMax {
        AddedKeeps(s.pending, r.rtp.value, r, f);
      } else {
        BehindFirst(s.pending, f, Frame(r.rtp.value, [r]));
        FrameLeavesKey(s.log, s.pending[0], k);
      }
    }
  }

  /** Whatever does not, short of a clear, neither delivers the key nor loses the frame. */
  lemma StepKeepsWaiting(c: Config, s: State, f: Frame, x: Record, op: Op)
    requires Inv(c, s) && c.dedupe && f in s.pending && x in f.recs && KeyOf(x) !in s.log.seen
    requires op != ClearOp && !TakesOut(c, s, f, op)
    ensures StillWaits(KeyOf(x), f, s, Step(c, s, op))
  {
    assert Bound(f);
    match op
    case PaintedOp(ts) => PaintKeepsWaiting(c, s, f, KeyOf(x), ts);
    case PushOp(r) => PushKeepsWaiting(c, s, f, KeyOf(x), r);
  }

  /** With nothing to wait for (not locked, no timestamp, or no frame allowed to wait) the
      first copy to arrive is delivered, and the other while the key is in the window is not. */
  lemma ArrivalDeliversOnce(c: Config, s: State, r: Record)
    requires Inv(c, s) && c.dedupe && (!s.locked || r.rtp.None? || c.pendingMax == 0)
    ensures var t := Push(c, s, r);
            && t.log.out == (if KeyOf(r) in s.log.seen then s.log.out else s.log.out + [r])
            && KeyOf(r) in t.log.seen && t.pending == s.pending
  {
    if s.locked && r.rtp.Some? {
      PushWhileLocked(c, s, r);
      AloneInFrame(s.log, r);
    }
    EmitRemembersKey(s.log, r);
  }

  lemma EmitRemembersKey(log: Log, r: Record)
    ensures KeyOf(r) in Emit(true, log, r).seen
  {
    if KeyOf(r) !in log.seen {
      var seen := Emit(true, log, r).seen;
      assert seen[|seen| - 1] == KeyOf(r);
    }
  }

  lemma AloneInFrame(log: Log, r: Record)
    ensures EmitAll(true, log, FrameOrder([r])) == Emit(true, log, r)
  {
    var recs := [r];
    assert recs[1..] == [] && Only(Sei, recs[1..]) == [] && Only(Dc, recs[1..]) == [];
    assert FrameOrder(recs) == recs;
    assert EmitAll(true, log, recs) == EmitAll(true, Emit(true, log, r), recs[1..]);
  }

  /** Over every run, whatever was pushed, painted, flushed or cleared before: however a frame
      goes out, each record in its SEI that has not been delivered within the window is
      delivered exactly once and as its SEI copy. Copies of it in the same frame, from either
      carriage and in any order of arrival, add nothing. */
  lemma RunDeliversOnce(c: Config, locked: bool, ops: seq<Op>, f: Frame, x: Record, op: Op)
    requires var s := Run(c, locked, ops);
             && c.dedupe && f in s.pending && TakesOut(c, s, f, op)
             && x in f.recs && x.via == Sei && KeyOf(x) !in s.log.seen && |f.recs| <= SEEN_KEYS_MAX
    ensures OneMore(KeyOf(x), Run(c, locked, ops).log.out, Run(c, locked, ops + [op]).log.out)
  {
    RunInv(c, locked, ops);
    StepDeliversOnce(c, Run(c, locked, ops), f, x, op);
    assert (ops + [op])[..|ops|] == ops;
  }

  /** Both copies wait; the paint of their frame, or of a later one, delivers the record
      once, and as its SEI copy. */
  lemma BothCarriagesOnce(c: Config, s: State, rtp: u32, rec: SeiMessage.KlvRecord, seiFirst: bool, ts: u32)
    requires Inv(c, s) && s.locked && c.dedupe && RtpAtOrBefore(rtp, ts)
    requires (exists f :: f in s.pending && f.ts == rtp) || |s.pending| < c.pendingMax
    requires |RecsAt(s.pending, rtp)| + 2 <= SEEN_KEYS_MAX && KeyOf(SeiCopy(rtp, rec)) !in s.log.seen
    ensures var k, waiting := KeyOf(SeiCopy(rtp, rec)), BothPushed(c, s, rtp, rec, seiFirst);
            && waiting.log == s.log
            && OneMore(k, s.log.out, Painted(c, waiting, ts).log.out)
  {
    var sei, dc := SeiCopy(rtp, rec), DcCopy(rtp, rec);
    var a, b := if seiFirst then sei else dc, if seiFirst then dc else sei;
    PushedWaits(c, s, a);
    PushedWaits(c, Push(c, s, a), b);
    var f := Frame(rtp, RecsAt(s.pending, rtp) + [a] + [b]);
    PaintDeliversOnce(c, BothPushed(c, s, rtp, rec, seiFirst), f, sei, ts);
  }

  /** From the server's bytes to the viewer, over every run: the access unit that carries one
      record in its SEI and the data-channel message for the same frame parse to two copies
      under one key; once the SEI copy waits, whatever else has happened, the operation that
      makes its frame go out delivers exactly one of them; and for the rest of the run the key
      goes out again only after as many other deliveries as the window holds. */
  lemma RecordReachesViewerOnce(c: Config, locked: bool, ops: seq<Op>, codec: VideoCodec, rtp: u32,
                                rec: SeiMessage.KlvRecord, f: Frame, op: Op, later: seq<Op>, i: nat, j: nat)
    requires SeiMessage.SeiHeader(codec).Some?
    requires |[0, 0, 0, 1] + SeiMessage.KlvNal(codec, rec)| < 0x100_0000
    requires var s := Run(c, locked, ops);
             && c.dedupe && f in s.pending && TakesOut(c, s, f, op) && |f.recs| <= SEEN_KEYS_MAX
             && SeiCopy(rtp, rec) in f.recs && KeyOf(SeiCopy(rtp, rec)) !in s.log.seen
    ensures KlvExtract.FrameRecords([0, 0, 0, 1] + SeiMessage.KlvNal(codec, rec), None) == [rec]
    ensures ParseKlvMessage(MessageBody(rtp, rec)) == Some(DcCopy(rtp, rec))
    ensures KeyOf(SeiCopy(rtp, rec)) == KeyOf(DcCopy(rtp, rec))
    ensures OneMore(KeyOf(SeiCopy(rtp, rec)), Run(c, locked, ops).log.out, Run(c, locked, ops + [op]).log.out)
    ensures var out := Run(c, locked, ops + [op] + later).log.out;
            i < j < |out| && KeyOf(out[i]) == KeyOf(out[j]) == KeyOf(SeiCopy(rtp, rec)) ==> j - i - 1 >= SEEN_KEYS_MAX
  {
    KlvExtract.EndToEndSingle(codec, None, rec);
    MessageExact(MessageBody(rtp, rec), rtp, rec);
    RunDeliversOnce(c, locked, ops, f, SeiCopy(rtp, rec), op);
    var run := ops + [op] + later;
    var out := Run(c, locked, run).log.out;
    if i < j < |out| && KeyOf(out[i]) == KeyOf(out[j]) {
      RunSpacesDuplicates(c, locked, run, i, j);
    }
  }
}
