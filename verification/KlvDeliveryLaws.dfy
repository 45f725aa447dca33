/** What every run of the KLV queue keeps: conservation of records, the backlog bound,
    serial order at a paint, the dedupe window. */
module KlvDeliveryLaws {
  import opened Bytes
  import opened KlvDelivery

  // ---- conservation ------------------------------------------------------------------

  /** Everything that has left the queue. */
  ghost function Left(log: Log): multiset<Record> { multiset(log.out) + multiset(log.dup) }

  ghost function Accounted(s: State): multiset<Record> {
    Left(s.log) + multiset(Waiting(s.pending)) + multiset(s.cleared)
  }

  lemma {:induction false} EmitAllLeft(dedupe: bool, log: Log, recs: seq<Record>)
    ensures Left(EmitAll(dedupe, log, recs)) == Left(log) + multiset(recs)
    decreases |recs|
  {
    if recs != [] {
      assert recs == [recs[0]] + recs[1..];
      EmitAllLeft(dedupe, Emit(dedupe, log, recs[0]), recs[1..]);
    }
  }

  lemma {:induction false} FrameOrderKeeps(recs: seq<Record>)
    ensures multiset(FrameOrder(recs)) == multiset(recs)
  {
    if recs != [] {
      assert recs == [recs[0]] + recs[1..];
      FrameOrderKeeps(recs[1..]);
    }
  }

  lemma {:induction false} AddedWaiting(pending: seq<Frame>, ts: u32, r: Record)
    ensures multiset(Waiting(Added(pending, ts, r))) == multiset(Waiting(pending)) + multiset{r}
  {
    if pending != [] {
      var p := Added(pending, ts, r);
      if pending[0].ts == ts {
        assert p[0].recs == pending[0].recs + [r] && p[1..] == pending[1..];
      } else {
        assert p[0] == pending[0] && p[1..] == Added(pending[1..], ts, r);
        AddedWaiting(pending[1..], ts, r);
      }
    } else {
      assert Added(pending, ts, r)[1..] == [];
      assert Waiting(Added(pending, ts, r)) == [r];
    }
  }

  lemma {:induction false} BackstopAccounted(c: Config, s: State)
    ensures Accounted(Backstop(c, s)) == Accounted(s)
    decreases |s.pending|
  {
    if |s.pending| > c.pendingMax {
      var recs := s.pending[0].recs;
      EmitAllLeft(c.dedupe, s.log, FrameOrder(recs));
      FrameOrderKeeps(recs);
      BackstopAccounted(c, s.(pending := s.pending[1..], log := EmitAll(c.dedupe, s.log, FrameOrder(recs))));
    }
  }

  lemma {:induction false} WithoutWaiting(pending: seq<Frame>, t: u32)
    ensures multiset(Waiting(pending)) == multiset(Waiting(Without(pending, t))) + multiset(RecsAt(pending, t))
  {
    if pending != [] && pending[0].ts != t {
      WithoutWaiting(pending[1..], t);
      assert Without(pending, t)[0] == pending[0] && Without(pending, t)[1..] == Without(pending[1..], t);
    }
  }

  lemma {:induction false} PaintKeysAccounted(c: Config, s: State, keys: seq<u32>)
    ensures Accounted(PaintKeys(c, s, keys)) == Accounted(s)
    decreases |keys|
  {
    if keys != [] {
      var recs := RecsAt(s.pending, keys[0]);
      WithoutWaiting(s.pending, keys[0]);
      EmitAllLeft(c.dedupe, s.log, FrameOrder(recs));
      FrameOrderKeeps(recs);
      PaintKeysAccounted(c, s.(pending := Without(s.pending, keys[0]),
                               log := EmitAll(c.dedupe, s.log, FrameOrder(recs))), keys[1..]);
    }
  }

  lemma {:induction false} EmitFramesLeft(dedupe: bool, log: Log, frames: seq<Frame>)
    ensures Left(EmitFrames(dedupe, log, frames)) == Left(log) + multiset(Waiting(frames))
    decreases |frames|
  {
    if frames != [] {
      EmitAllLeft(dedupe, log, FrameOrder(frames[0].recs));
      FrameOrderKeeps(frames[0].recs);
      EmitFramesLeft(dedupe, EmitAll(dedupe, log, FrameOrder(frames[0].recs)), frames[1..]);
    }
  }

  lemma EmitLeft(dedupe: bool, log: Log, r: Record)
    ensures Left(Emit(dedupe, log, r)) == Left(log) + multiset{r}
  {
    EmitAllLeft(dedupe, log, [r]);
    assert [r][1..] == [];
    assert multiset([r]) == multiset{r};
  }

  lemma WaitingAccounted(s: State, ts: u32, r: Record)
    ensures Accounted(s.(pending := Added(s.pending, ts, r))) == Accounted(s) + multiset{r}
  {
    AddedWaiting(s.pending, ts, r);
  }

  lemma PushAccounted(c: Config, s: State, r: Record)
    ensures Accounted(Push(c, s, r)) == Accounted(s) + multiset{r}
  {
    hide Emit, Added, Backstop, Waiting, Left;
    if s.locked && r.rtp.Some? {
      WaitingAccounted(s, r.rtp.value, r);
      BackstopAccounted(c, s.(pending := Added(s.pending, r.rtp.value, r)));
    } else {
      EmitLeft(c.dedupe, s.log, r);
    }
  }

  lemma ClearAccounted(s: State)
    ensures Accounted(Clear(s)) == Accounted(s)
  {
    assert multiset(s.cleared + Waiting(s.pending)) == multiset(s.cleared) + multiset(Waiting(s.pending));
  }

  lemma StepAccounted(c: Config, s: State, op: Op)
    ensures Accounted(Step(c, s, op)) == Accounted(s) + if op.PushOp? then multiset{op.r} else multiset{}
  {
    match op
    case PushOp(r) => PushAccounted(c, s, r);
    case PaintedOp(ts) => PaintKeysAccounted(c, s, Sorted(DueKeys(s.pending, ts), ts));
    case FlushOp => EmitFramesLeft(c.dedupe, s.log, s.pending);
    case ClearOp => ClearAccounted(s);
  }

  /** No record is lost or invented: over every run, what was pushed is what was delivered,
      suppressed as a duplicate, cleared, or still waits. */
  lemma {:induction false} RunConserves(c: Config, locked: bool, ops: seq<Op>)
    ensures Accounted(Run(c, locked, ops)) == multiset(PushedRecords(ops))
  {
    if ops != [] {
      var before := ops[..|ops| - 1];
      RunConserves(c, locked, before);
      StepAccounted(c, Run(c, locked, before), ops[|ops| - 1]);
    }
  }

  // ---- the state every run keeps -----------------------------------------------------

  ghost predicate DistinctKeys(pending: seq<Frame>) {
    forall i, j | 0 <= i < j < |pending| :: pending[i].ts != pending[j].ts
  }

  ghost predicate Bound(f: Frame) {
    f.recs != [] && forall r | r in f.recs :: r.rtp == Some(f.ts)
  }

  ghost function Keys(out: seq<Record>): seq<Key> {
    seq(|out|, i requires 0 <= i < |out| => KeyOf(out[i]))
  }

  /** The keys of the last 4096 deliveries. */
  ghost function Window(out: seq<Record>): seq<Key> {
    Keys(out)[if |out| > SEEN_KEYS_MAX then |out| - SEEN_KEYS_MAX else 0..]
  }

  /** Equal keys are at least 4096 other deliveries apart. */
  ghost predicate Spaced(out: seq<Record>) {
    forall i, j | 0 <= i < j < |out| && j - i <= SEEN_KEYS_MAX :: KeyOf(out[i]) != KeyOf(out[j])
  }

  ghost predicate Remembers(log: Log) {
    log.seen == Window(log.out) && Spaced(log.out)
  }

  ghost predicate Tidy(pending: seq<Frame>) {
    DistinctKeys(pending) && forall f | f in pending :: Bound(f)
  }

  ghost predicate Inv(c: Config, s: State) {
    && Tidy(s.pending)
    && |s.pending| <= c.pendingMax
    && (!s.locked ==> s.pending == [])
    && (c.dedupe ==> Remembers(s.log))
  }

  lemma EmitRemembers(log: Log, r: Record)
    requires Remembers(log)
    ensures Remembers(Emit(true, log, r))
  {
    var k, n := KeyOf(r), |log.out|;
    if k !in log.seen {
      var out := log.out + [r];
      assert Keys(out) == Keys(log.out) + [k];
      forall i, j | 0 <= i < j < |out| && j - i <= SEEN_KEYS_MAX ensures KeyOf(out[i]) != KeyOf(out[j]) {
        if j == n {
          var first := if n > SEEN_KEYS_MAX then n - SEEN_KEYS_MAX else 0;
          assert log.seen[i - first] == Keys(log.out)[i] == KeyOf(out[i]);
        }
      }
    }
  }

  lemma {:induction false} EmitAllRemembers(dedupe: bool, log: Log, recs: seq<Record>)
    requires dedupe ==> Remembers(log)
    ensures dedupe ==> Remembers(EmitAll(dedupe, log, recs))
    decreases |recs|
  {
    if recs != [] {
      if dedupe { EmitRemembers(log, recs[0]); }
      EmitAllRemembers(dedupe, Emit(dedupe, log, recs[0]), recs[1..]);
    }
  }

  lemma {:induction false} EmitFramesRemembers(dedupe: bool, log: Log, frames: seq<Frame>)
    requires dedupe ==> Remembers(log)
    ensures dedupe ==> Remembers(EmitFrames(dedupe, log, frames))
    decreases |frames|
  {
    if frames != [] {
      EmitAllRemembers(dedupe, log, FrameOrder(frames[0].recs));
      EmitFramesRemembers(dedupe, EmitAll(dedupe, log, FrameOrder(frames[0].recs)), frames[1..]);
    }
  }

  /** Adding a record keeps the frames in place; a timestamp not yet waiting comes last. */
  lemma {:induction false} AddedShape(pending: seq<Frame>, ts: u32, r: Record)
    ensures var p := Added(pending, ts, r);
            && |pending| <= |p| <= |pending| + 1
            && (|p| == |pending| <==> exists f :: f in pending && f.ts == ts)
            && (forall i | 0 <= i < |pending| :: p[i].ts == pending[i].ts)
            && (|p| > |pending| ==> p == pending + [Frame(ts, [r])])
  {
    if pending != [] && pending[0].ts != ts {
      AddedShape(pending[1..], ts, r);
      var p, q := Added(pending, ts, r), Added(pending[1..], ts, r);
      assert p == [pending[0]] + q;
      assert forall f :: f in pending <==> f == pending[0] || f in pending[1..];
      forall i | 0 <= i < |pending| ensures p[i].ts == pending[i].ts {
        if i > 0 { assert p[i] == q[i - 1] && pending[i] == pending[1..][i - 1]; }
      }
    } else if pending != [] {
      assert pending[0] in pending;
    }
  }

  lemma {:induction false} AddedBound(pending: seq<Frame>, ts: u32, r: Record)
    requires (forall f | f in pending :: Bound(f)) && r.rtp == Some(ts)
    ensures forall f | f in Added(pending, ts, r) :: Bound(f)
  {
    if pending != [] {
      assert Bound(pending[0]);
      if pending[0].ts != ts { AddedBound(pending[1..], ts, r); }
    }
  }

  lemma AddedTidy(pending: seq<Frame>, ts: u32, r: Record)
    requires Tidy(pending) && r.rtp == Some(ts)
    ensures Tidy(Added(pending, ts, r))
  {
    AddedShape(pending, ts, r);
    AddedBound(pending, ts, r);
    var p := Added(pending, ts, r);
    if |p| > |pending| {
      forall i | 0 <= i < |pending| ensures p[i].ts != ts { assert pending[i] in pending; }
    }
  }

  lemma {:induction false} BackstopInv(c: Config, s: State)
    requires Tidy(s.pending) && s.locked && (c.dedupe ==> Remembers(s.log))
    ensures Inv(c, Backstop(c, s)) && Backstop(c, s).locked
    decreases |s.pending|
  {
    if |s.pending| > c.pendingMax {
      EmitAllRemembers(c.dedupe, s.log, FrameOrder(s.pending[0].recs));
      BackstopInv(c, s.(pending := s.pending[1..],
                        log := EmitAll(c.dedupe, s.log, FrameOrder(s.pending[0].recs))));
    }
  }

  lemma {:induction false} WithoutSubset(pending: seq<Frame>, t: u32)
    requires DistinctKeys(pending)
    ensures DistinctKeys(Without(pending, t)) && |Without(pending, t)| <= |pending|
    ensures forall f :: f in Without(pending, t) <==> f in pending && f.ts != t
  {
    if pending != [] {
      assert pending == [pending[0]] + pending[1..];
      if pending[0].ts != t {
        WithoutSubset(pending[1..], t);
        var w := Without(pending[1..], t);
        forall i | 0 <= i < |w| ensures w[i].ts != pending[0].ts {
          assert w[i] in pending[1..];
        }
      }
    }
  }

  lemma {:induction false} PaintKeysInv(c: Config, s: State, keys: seq<u32>)
    requires Inv(c, s)
    ensures Inv(c, PaintKeys(c, s, keys)) && PaintKeys(c, s, keys).locked == s.locked
    decreases |keys|
  {
    if keys != [] {
      WithoutSubset(s.pending, keys[0]);
      EmitAllRemembers(c.dedupe, s.log, FrameOrder(RecsAt(s.pending, keys[0])));
      PaintKeysInv(c, s.(pending := Without(s.pending, keys[0]),
                         log := EmitAll(c.dedupe, s.log, FrameOrder(RecsAt(s.pending, keys[0])))), keys[1..]);
    }
  }

  lemma StepInv(c: Config, s: State, op: Op)
    requires Inv(c, s)
    ensures Inv(c, Step(c, s, op))
  {
    match op
    case PushOp(r) =>
      if s.locked && r.rtp.Some? {
        AddedTidy(s.pending, r.rtp.value, r);
        BackstopInv(c, s.(pending := Added(s.pending, r.rtp.value, r)));
      } else if c.dedupe {
        EmitRemembers(s.log, r);
      }
    case PaintedOp(ts) => PaintKeysInv(c, s, Sorted(DueKeys(s.pending, ts), ts));
    case FlushOp => EmitFramesRemembers(c.dedupe, s.log, s.pending);
    case ClearOp =>
  }

  /** Over every run at most `pendingMax` frames wait, each once and with its own records,
      nothing waits once paint-locking is left, and the dedupe memory is exactly the keys of
      the last 4096 deliveries. */
  lemma {:induction false} RunInv(c: Config, locked: bool, ops: seq<Op>)
    ensures Inv(c, Run(c, locked, ops))
  {
    if ops != [] {
      RunInv(c, locked, ops[..|ops| - 1]);
      StepInv(c, Run(c, locked, ops[..|ops| - 1]), ops[|ops| - 1]);
    }
  }

  /** With dedupe on, in every run, two deliveries of one key have at least 4096 deliveries
      between them. */
  lemma RunSpacesDuplicates(c: Config, locked: bool, ops: seq<Op>, i: nat, j: nat)
    requires c.dedupe
    requires i < j < |Run(c, locked, ops).log.out|
    requires KeyOf(Run(c, locked, ops).log.out[i]) == KeyOf(Run(c, locked, ops).log.out[j])
    ensures j - i - 1 >= SEEN_KEYS_MAX
  {
    RunInv(c, locked, ops);
  }

  // ---- a paint -----------------------------------------------------------------------

  /** `pending` without the keys of a set. */
  ghost function Keep(pending: seq<Frame>, gone: set<u32>): seq<Frame>
  {
    if pending == [] then []
    else (if pending[0].ts in gone then [] else [pending[0]]) + Keep(pending[1..], gone)
  }

  /** The frames still to come after a paint at `ts`, in their old order. */
  ghost function NotDue(pending: seq<Frame>, ts: u32): seq<Frame>
  {
    if pending == [] then []
    else (if RtpAtOrBefore(pending[0].ts, ts) then [] else [pending[0]]) + NotDue(pending[1..], ts)
  }

  ghost function FramesAt(pending: seq<Frame>, keys: seq<u32>): (r: seq<Frame>)
    ensures |r| == |keys| && forall i | 0 <= i < |keys| :: r[i] == Frame(keys[i], RecsAt(pending, keys[i]))
  {
    seq(|keys|, i requires 0 <= i < |keys| => Frame(keys[i], RecsAt(pending, keys[i])))
  }

  /** The frames a paint at `ts` emits, in the order it emits them. */
  ghost function DueInOrder(pending: seq<Frame>, ts: u32): seq<Frame> {
    FramesAt(pending, Sorted(DueKeys(pending, ts), ts))
  }

  lemma {:induction false} WithoutIsKeep(pending: seq<Frame>, t: u32, gone: set<u32>)
    requires DistinctKeys(pending)
    ensures Keep(Without(pending, t), gone) == Keep(pending, gone + {t})
  {
    if pending != [] {
      if pending[0].ts == t {
        KeepAbsent(pending[1..], t, gone);
      } else {
        WithoutIsKeep(pending[1..], t, gone);
        assert Without(pending, t)[1..] == Without(pending[1..], t);
      }
    }
  }

  lemma {:induction false} KeepAbsent(pending: seq<Frame>, t: u32, gone: set<u32>)
    requires forall f | f in pending :: f.ts != t
    ensures Keep(pending, gone) == Keep(pending, gone + {t})
  {
    if pending != [] {
      assert pending[0] in pending;
      KeepAbsent(pending[1..], t, gone);
    }
  }

  lemma {:induction false} KeepNothing(pending: seq<Frame>)
    ensures Keep(pending, {}) == pending
  {
    if pending != [] { KeepNothing(pending[1..]); }
  }

  lemma {:induction false} WithoutRecs(pending: seq<Frame>, gone: u32, t: u32)
    requires gone != t
    ensures RecsAt(Without(pending, gone), t) == RecsAt(pending, t)
  {
    if pending != [] && pending[0].ts != gone && pending[0].ts != t {
      WithoutRecs(pending[1..], gone, t);
      assert Without(pending, gone)[1..] == Without(pending[1..], gone);
    }
  }

  ghost function KeySet(keys: seq<u32>): set<u32> { set k | k in keys }

  ghost predicate Distinct(keys: seq<u32>) {
    forall i, j | 0 <= i < j < |keys| :: keys[i] != keys[j]
  }

  /** Emitting frame after frame is emitting the list of frames. */
  lemma {:induction false} PaintKeysExact(c: Config, s: State, keys: seq<u32>)
    requires DistinctKeys(s.pending) && Distinct(keys)
    ensures var s' := PaintKeys(c, s, keys);
            && s'.log == EmitFrames(c.dedupe, s.log, FramesAt(s.pending, keys))
            && s'.pending == Keep(s.pending, KeySet(keys))
            && s'.locked == s.locked && s'.cleared == s.cleared
    decreases |keys|
  {
    if keys == [] {
      KeepNothing(s.pending);
      assert KeySet(keys) == {};
    } else {
      var t, rest := keys[0], keys[1..];
      var mid := s.(pending := Without(s.pending, t),
                    log := EmitAll(c.dedupe, s.log, FrameOrder(RecsAt(s.pending, t))));
      WithoutSubset(s.pending, t);
      PaintKeysExact(c, mid, rest);
      WithoutIsKeep(s.pending, t, KeySet(rest));
      assert KeySet(keys) == KeySet(rest) + {t};
      forall i | 0 <= i < |rest| ensures RecsAt(mid.pending, rest[i]) == RecsAt(s.pending, rest[i]) {
        WithoutRecs(s.pending, t, rest[i]);
      }
      assert FramesAt(s.pending, keys)[1..] == FramesAt(mid.pending, rest);
    }
  }

  lemma {:induction false} DueKeysExact(pending: seq<Frame>, ts: u32)
    requires DistinctKeys(pending)
    ensures Distinct(DueKeys(pending, ts))
    ensures forall t :: t in DueKeys(pending, ts) <==> RtpAtOrBefore(t, ts) && exists f :: f in pending && f.ts == t
  {
    if pending != [] {
      DueKeysExact(pending[1..], ts);
      assert forall f :: f in pending <==> f == pending[0] || f in pending[1..];
      assert forall f | f in pending[1..] :: f.ts != pending[0].ts;
    }
  }

  lemma {:induction false} PlacedKeys(t: u32, keys: seq<u32>, ts: u32)
    ensures multiset(Placed(t, keys, ts)) == multiset(keys) + multiset{t}
  {
    if keys != [] {
      assert keys == [keys[0]] + keys[1..];
      PlacedKeys(t, keys[1..], ts);
    }
  }

  lemma OrderedCons(k: u32, keys: seq<u32>, ts: u32)
    requires Ordered(keys, ts) && (keys != [] ==> Signed32(k - ts) <= Signed32(keys[0] - ts))
    ensures Ordered([k] + keys, ts)
  {
    var p := [k] + keys;
    forall i, j | 0 <= i < j < |p| ensures Signed32(p[i] - ts) <= Signed32(p[j] - ts) {
      if i == 0 {
        assert p[j] == keys[j - 1];
        if j > 1 { assert Signed32(keys[0] - ts) <= Signed32(keys[j - 1] - ts); }
      } else {
        assert Signed32(keys[i - 1] - ts) <= Signed32(keys[j - 1] - ts);
      }
    }
  }

  lemma {:induction false} PlacedOrdered(t: u32, keys: seq<u32>, ts: u32)
    requires Ordered(keys, ts)
    ensures Ordered(Placed(t, keys, ts), ts)
  {
    if keys == [] || Signed32(t - ts) <= Signed32(keys[0] - ts) {
      OrderedCons(t, keys, ts);
    } else {
      var rest := keys[1..];
      forall i, j | 0 <= i < j < |rest| ensures Signed32(rest[i] - ts) <= Signed32(rest[j] - ts) {
        assert rest[i] == keys[i + 1] && rest[j] == keys[j + 1];
      }
      PlacedOrdered(t, rest, ts);
      assert rest != [] ==> Signed32(keys[0] - ts) <= Signed32(keys[1] - ts);
      assert Placed(t, rest, ts)[0] == t || (rest != [] && Placed(t, rest, ts)[0] == rest[0]);
      OrderedCons(keys[0], Placed(t, rest, ts), ts);
    }
  }

  /** Ascending by the comparator of `painted`. */
  ghost predicate Ordered(keys: seq<u32>, ts: u32) {
    forall i, j | 0 <= i < j < |keys| :: Signed32(keys[i] - ts) <= Signed32(keys[j] - ts)
  }

  lemma {:induction false} SortedExact(keys: seq<u32>, ts: u32)
    ensures Ordered(Sorted(keys, ts), ts) && multiset(Sorted(keys, ts)) == multiset(keys)
  {
    if keys != [] {
      SortedExact(keys[1..], ts);
      PlacedKeys(keys[0], Sorted(keys[1..], ts), ts);
      PlacedOrdered(keys[0], Sorted(keys[1..], ts), ts);
      assert keys == [keys[0]] + keys[1..];
    }
  }

  lemma DistinctByMultiset(a: seq<u32>, b: seq<u32>)
    requires multiset(a) == multiset(b) && Distinct(b)
    ensures Distinct(a)
  {
    forall i, j | 0 <= i < j < |a| ensures a[i] != a[j] {
      if a[i] == a[j] {
        assert a == a[..i] + [a[i]] + a[i + 1..j] + [a[j]] + a[j + 1..];
        assert multiset(a)[a[i]] >= 2;
        OnceInDistinct(b, a[i]);
      }
    }
  }

  lemma {:induction false} OnceInDistinct(b: seq<u32>, x: u32)
    requires Distinct(b)
    ensures multiset(b)[x] <= 1
  {
    if b != [] {
      assert b == [b[0]] + b[1..];
      OnceInDistinct(b[1..], x);
    }
  }

  /** The comparator puts the older of two due timestamps first, across the wrap too. */
  lemma OlderFirst(a: u32, b: u32, ts: u32)
    requires RtpAtOrBefore(a, ts) && RtpAtOrBefore(b, ts)
    requires Signed32(a - ts) <= Signed32(b - ts)
    ensures RtpAtOrBefore(a, b)
  {
    var da: int, db: int := (ts - a) % U32_MOD, (ts - b) % U32_MOD;
    Behind(a, ts);
    Behind(b, ts);
    Difference(ts, a, b);
  }

  /** The signed distance of a timestamp that is not ahead. */
  lemma Behind(a: u32, ts: u32)
    requires RtpAtOrBefore(a, ts)
    ensures Signed32(a - ts) == -((ts - a) % U32_MOD)
  {
    var d: int := ts - a;
    assert d % U32_MOD == if d >= 0 then d else d + U32_MOD;
  }

  lemma Difference(ts: u32, a: u32, b: u32)
    requires (ts - a) % U32_MOD >= (ts - b) % U32_MOD
    ensures (b - a) % U32_MOD == (ts - a) % U32_MOD - (ts - b) % U32_MOD
  {
    var x: int, y: int := ts - a, ts - b;
    assert x % U32_MOD == if x >= 0 then x else x + U32_MOD;
    assert y % U32_MOD == if y >= 0 then y else y + U32_MOD;
  }

  lemma {:induction false} KeepIsNotDue(pending: seq<Frame>, gone: set<u32>, ts: u32)
    requires forall f | f in pending :: f.ts in gone <==> RtpAtOrBefore(f.ts, ts)
    ensures Keep(pending, gone) == NotDue(pending, ts)
    ensures forall f :: f in NotDue(pending, ts) <==> f in pending && !RtpAtOrBefore(f.ts, ts)
  {
    if pending != [] {
      assert pending[0] in pending;
      KeepIsNotDue(pending[1..], gone, ts);
      assert forall f :: f in pending <==> f == pending[0] || f in pending[1..];
    }
  }

  lemma {:induction false} RecsOf(pending: seq<Frame>, f: Frame)
    requires DistinctKeys(pending) && f in pending
    ensures RecsAt(pending, f.ts) == f.recs
  {
    if pending[0] != f {
      assert f in pending[1..];
      var i :| 0 <= i < |pending| - 1 && pending[1..][i] == f;
      assert pending[i + 1] == f;
      RecsOf(pending[1..], f);
    }
  }

  /** The sorted due keys: those waiting at or before `ts`, each once. */
  lemma SortedDueKeys(pending: seq<Frame>, ts: u32)
    requires DistinctKeys(pending)
    ensures var keys := Sorted(DueKeys(pending, ts), ts);
            && Distinct(keys) && Ordered(keys, ts)
            && forall t :: t in keys <==> RtpAtOrBefore(t, ts) && exists f :: f in pending && f.ts == t
  {
    var raw := DueKeys(pending, ts);
    var keys := Sorted(raw, ts);
    DueKeysExact(pending, ts);
    SortedExact(raw, ts);
    DistinctByMultiset(keys, raw);
    assert forall t :: t in keys <==> t in multiset(keys);
    assert forall t :: t in raw <==> t in multiset(raw);
  }

  lemma DueMembers(pending: seq<Frame>, ts: u32, f: Frame)
    requires DistinctKeys(pending)
    ensures f in DueInOrder(pending, ts) <==> f in pending && RtpAtOrBefore(f.ts, ts)
  {
    var keys := Sorted(DueKeys(pending, ts), ts);
    var due := DueInOrder(pending, ts);
    SortedDueKeys(pending, ts);
    if f in due {
      var i :| 0 <= i < |due| && due[i] == f;
      assert keys[i] in keys;
      var g :| g in pending && g.ts == f.ts;
      RecsOf(pending, g);
    }
    if f in pending && RtpAtOrBefore(f.ts, ts) {
      RecsOf(pending, f);
      var i :| 0 <= i < |keys| && keys[i] == f.ts;
      assert due[i] == f;
    }
  }

  lemma DueInOrderSorted(pending: seq<Frame>, ts: u32, i: nat, j: nat)
    requires DistinctKeys(pending) && i < j < |DueInOrder(pending, ts)|
    ensures var due := DueInOrder(pending, ts); due[i].ts != due[j].ts && RtpAtOrBefore(due[i].ts, due[j].ts)
  {
    var keys := Sorted(DueKeys(pending, ts), ts);
    SortedDueKeys(pending, ts);
    assert keys[i] in keys && keys[j] in keys;
    OlderFirst(keys[i], keys[j], ts);
  }

  /** The frames a paint emits: exactly those waiting at or before it, each once, older ones
      first in serial order. */
  lemma DueInOrderExact(pending: seq<Frame>, ts: u32)
    requires DistinctKeys(pending)
    ensures var due := DueInOrder(pending, ts);
            && (forall f :: f in due <==> f in pending && RtpAtOrBefore(f.ts, ts))
            && (forall i, j | 0 <= i < j < |due| :: due[i].ts != due[j].ts && RtpAtOrBefore(due[i].ts, due[j].ts))
  {
    var due := DueInOrder(pending, ts);
    forall f ensures f in due <==> f in pending && RtpAtOrBefore(f.ts, ts) {
      DueMembers(pending, ts, f);
    }
    forall i, j | 0 <= i < j < |due| ensures due[i].ts != due[j].ts && RtpAtOrBefore(due[i].ts, due[j].ts) {
      DueInOrderSorted(pending, ts, i, j);
    }
  }

  /** A paint, exactly: the due frames go out in order, and the others stay as they were. */
  lemma PaintedExact(c: Config, s: State, ts: u32)
    requires DistinctKeys(s.pending)
    ensures var s' := Painted(c, s, ts);
            && s'.log == EmitFrames(c.dedupe, s.log, DueInOrder(s.pending, ts))
            && s'.pending == NotDue(s.pending, ts)
            && (forall f | f in s'.pending :: !RtpAtOrBefore(f.ts, ts))
            && s'.locked == s.locked && s'.cleared == s.cleared
  {
    var keys := Sorted(DueKeys(s.pending, ts), ts);
    SortedDueKeys(s.pending, ts);
    PaintKeysExact(c, s, keys);
    KeepIsNotDue(s.pending, KeySet(keys), ts);
  }

  // ---- the paint lock ----------------------------------------------------------------

  /** While paint-locked, pushing a timestamped record delivers nothing, unless its frame is
      the one too many: then the frame waiting longest goes out and `pendingMax` still wait. */
  lemma PushWhileLocked(c: Config, s: State, r: Record)
    requires Inv(c, s) && s.locked && r.rtp.Some?
    ensures var s', p := Push(c, s, r), Added(s.pending, r.rtp.value, r);
            if (exists f :: f in s.pending && f.ts == r.rtp.value) || |s.pending| < c.pendingMax then
              s'.log == s.log && s'.pending == p
            else
              && p == s.pending + [Frame(r.rtp.value, [r])]
              && s'.log == EmitAll(c.dedupe, s.log, FrameOrder(p[0].recs))
              && s'.pending == p[1..] && |s'.pending| == c.pendingMax
  {
    var p := Added(s.pending, r.rtp.value, r);
    AddedShape(s.pending, r.rtp.value, r);
    if |p| > c.pendingMax {
      var log := EmitAll(c.dedupe, s.log, FrameOrder(p[0].recs));
      var after := s.(pending := p[1..], log := log);
      assert Backstop(c, after) == after;
      assert Backstop(c, s.(pending := p)) == after;
    }
  }
}
