/** Per-PID PES reassembly (`Reassembler`), as functions on values. */
module PesReassembly {
  import opened Bytes
  import opened TsPacket
  import opened PesPacket

  /** How a packet came to be damaged: a counter jump, or fewer bytes than it declared. */
  datatype Damage = CcGap | ShortPes

  datatype Reason = Damaged(why: Damage) | Unparseable(fault: PesFault)

  datatype Outcome = Complete(pes: Pes) | Overflow(pid: Pid) | OverflowTotal
                   | ZeroLengthNonVideo(pid: Pid, streamId: byte) | Malformed(pid: Pid, reason: Reason)

  datatype Partial = Partial(total: Option<nat>, buf: seq<byte>, randomAccess: bool, damage: Option<Damage>)

  datatype Caps = Caps(perPid: nat, total: nat)

  datatype Store = Store(byPid: map<Pid, Partial>, buffered: nat)

  /** What becomes of a partial packet: it is closed with these outcomes, or kept. */
  datatype Fate = Closed(outcomes: seq<Outcome>) | Kept(part: Partial)

  function SaturatingSub(a: nat, b: nat): (r: nat)
  {
    if a < b then 0 else a - b
  }

  /** `finish`: a damage mark right before the packet it describes, or the parse error alone. */
  function Finished(pid: Pid, part: Partial): (r: seq<Outcome>)
  {
    var short := part.total.Some? && |part.buf| < part.total.value;
    var damage := if part.damage.None? && short then Some(ShortPes) else part.damage;
    match ParsePes(pid, part.buf, part.randomAccess)
    case TooShort => []
    case Bad(fault) => [Malformed(pid, Unparseable(fault))]
    case Got(pes) => (if damage.Some? then [Malformed(pid, Damaged(damage.value))] else []) + [Complete(pes)]
  }

  /** Appending a payload under the per-PID cap, and reading the length field once six bytes
      are there. */
  function Appended(cap: nat, pid: Pid, part: Partial, payload: seq<byte>, video: bool): (r: Fate)
  {
    var buf := part.buf + payload;
    if |buf| > cap then Closed([Overflow(pid)])
    else if part.total.None? && |buf| >= 6 then
      var n := (buf[4] as int) * 256 + buf[5];
      if n != 0 then Kept(part.(buf := buf, total := Some(6 + n)))
      else if !video then Closed([ZeroLengthNonVideo(pid, buf[3])])
      else Kept(part.(buf := buf))
    else Kept(part.(buf := buf))
  }

  /** Completion by length; bytes past the declared length are dropped. */
  function Settled(pid: Pid, part: Partial): (r: Fate)
  {
    if part.total.Some? && |part.buf| >= part.total.value
    then Closed(Finished(pid, part.(buf := part.buf[..part.total.value])))
    else Kept(part)
  }

  function FreshPartial(randomAccess: bool): (p: Partial)
  {
    Partial(None, [], randomAccess, None)
  }

  /** A payload unit start closes what was in flight on its PID and opens a new packet. */
  function Opened(st: Store, pid: Pid, randomAccess: bool): (r: (Store, seq<Outcome>))
  {
    var byPid := st.byPid[pid := FreshPartial(randomAccess)];
    if pid in st.byPid
    then (Store(byPid, SaturatingSub(st.buffered, |st.byPid[pid].buf|)), Finished(pid, st.byPid[pid]))
    else (Store(byPid, st.buffered), [])
  }

  /** The aggregate cap, which drops everything, then completion by length. */
  function SettledIn(caps: Caps, st: Store, pid: Pid): (r: (Store, seq<Outcome>))
    requires pid in st.byPid
  {
    if st.buffered > caps.total then (Store(map[], 0), [OverflowTotal])
    else
      match Settled(pid, st.byPid[pid])
      case Closed(outs) => (Store(st.byPid - {pid}, SaturatingSub(st.buffered, |st.byPid[pid].buf|)), outs)
      case Kept(_) => (st, [])
  }

  function Added(caps: Caps, st: Store, pid: Pid, payload: seq<byte>, video: bool): (r: (Store, seq<Outcome>))
  {
    if pid !in st.byPid then (st, [])
    else
      match Appended(caps.perPid, pid, st.byPid[pid], payload, video)
      case Closed(outs) => (Store(st.byPid - {pid}, SaturatingSub(st.buffered, |st.byPid[pid].buf|)), outs)
      case Kept(part) => SettledIn(caps, Store(st.byPid[pid := part], st.buffered + |payload|), pid)
  }

  /** `push` */
  function Pushed(caps: Caps, st: Store, pid: Pid, payload: seq<byte>, start: bool, randomAccess: bool, video: bool)
    : (r: (Store, seq<Outcome>))
  {
    var (st1, outs1) := if start then Opened(st, pid, randomAccess) else (st, []);
    var (st2, outs2) := Added(caps, st1, pid, payload, video);
    (st2, outs1 + outs2)
  }

  function Marked(part: Partial): (r: Partial)
  {
    if part.damage.None? then part.(damage := Some(CcGap)) else part
  }

  /** `mark_damaged`: a packet already marked keeps its mark. */
  function MarkedDamaged(st: Store, pid: Pid): (r: Store)
  {
    if pid in st.byPid then st.(byPid := st.byPid[pid := Marked(st.byPid[pid])]) else st
  }

  /** `drain_partial_outcomes`, for the PIDs below `n`, in PID order. */
  function Drained(byPid: map<Pid, Partial>, n: nat): (r: seq<Outcome>)
    requires n <= 0x2000
  {
    if n == 0 then [] else Drained(byPid, n - 1) + DrainedAt(byPid, n - 1)
  }

  function DrainedAt(byPid: map<Pid, Partial>, pid: Pid): (r: seq<Outcome>)
  {
    if pid in byPid then Finished(pid, byPid[pid]) else []
  }

  // ---- the bytes held ------------------------------------------------------------------

  /** Bytes buffered on the PIDs below `n`. */
  function HeldBelow(byPid: map<Pid, Partial>, n: nat): (r: nat)
    requires n <= 0x2000
  {
    if n == 0 then 0
    else HeldBelow(byPid, n - 1) + if n - 1 in byPid then |byPid[n - 1].buf| else 0
  }

  function Holds(byPid: map<Pid, Partial>, pid: Pid): (r: nat)
  {
    if pid in byPid then |byPid[pid].buf| else 0
  }

  lemma {:induction false} HeldDiffers(a: map<Pid, Partial>, b: map<Pid, Partial>, pid: Pid, n: nat)
    requires n <= 0x2000 && forall q: Pid | q != pid :: Holds(a, q) == Holds(b, q)
    ensures HeldBelow(a, n) + (if pid < n then Holds(b, pid) else 0)
         == HeldBelow(b, n) + (if pid < n then Holds(a, pid) else 0)
  {
    if n > 0 {
      HeldDiffers(a, b, pid, n - 1);
      var q: Pid := n - 1;
      assert q != pid ==> Holds(a, q) == Holds(b, q);
    }
  }

  lemma {:induction false} HeldEmpty(n: nat)
    requires n <= 0x2000
    ensures HeldBelow(map[], n) == 0
  {
    if n > 0 {
      HeldEmpty(n - 1);
    }
  }

  lemma {:induction false} HeldAtLeast(byPid: map<Pid, Partial>, pid: Pid, n: nat)
    requires n <= 0x2000 && pid < n
    ensures HeldBelow(byPid, n) >= Holds(byPid, pid)
  {
    if pid < n - 1 {
      HeldAtLeast(byPid, pid, n - 1);
    }
  }

  /** The counter is the bytes held, exactly. */
  predicate Counted(caps: Caps, st: Store)
  {
    && st.buffered == HeldBelow(st.byPid, 0x2000)
    && forall p | p in st.byPid :: |st.byPid[p].buf| <= caps.perPid
  }

  /** And both caps are kept. */
  predicate Accounted(caps: Caps, st: Store)
  {
    Counted(caps, st) && st.buffered <= caps.total
  }

  lemma OpenedAccounted(caps: Caps, st: Store, pid: Pid, randomAccess: bool)
    requires Accounted(caps, st)
    ensures Accounted(caps, Opened(st, pid, randomAccess).0)
  {
    var byPid := Opened(st, pid, randomAccess).0.byPid;
    HeldDiffers(st.byPid, byPid, pid, 0x2000);
    HeldAtLeast(st.byPid, pid, 0x2000);
  }

  lemma ClosedCounted(caps: Caps, st: Store, pid: Pid)
    requires Counted(caps, st) && pid in st.byPid
    ensures st.buffered >= |st.byPid[pid].buf|
    ensures Counted(caps, Store(st.byPid - {pid}, st.buffered - |st.byPid[pid].buf|))
  {
    HeldDiffers(st.byPid, st.byPid - {pid}, pid, 0x2000);
    HeldAtLeast(st.byPid, pid, 0x2000);
  }

  lemma SettledAccounted(caps: Caps, st: Store, pid: Pid)
    requires Counted(caps, st) && pid in st.byPid
    ensures Accounted(caps, SettledIn(caps, st, pid).0)
  {
    HeldEmpty(0x2000);
    ClosedCounted(caps, st, pid);
  }

  lemma GrownCounted(caps: Caps, st: Store, pid: Pid, part: Partial, more: nat)
    requires Counted(caps, st) && pid in st.byPid && |part.buf| == |st.byPid[pid].buf| + more <= caps.perPid
    ensures Counted(caps, Store(st.byPid[pid := part], st.buffered + more))
  {
    HeldDiffers(st.byPid, st.byPid[pid := part], pid, 0x2000);
    assert Holds(st.byPid[pid := part], pid) == |part.buf|;
  }

  lemma AddedAccounted(caps: Caps, st: Store, pid: Pid, payload: seq<byte>, video: bool)
    requires Accounted(caps, st)
    ensures Accounted(caps, Added(caps, st, pid, payload, video).0)
  {
    if pid in st.byPid {
      match Appended(caps.perPid, pid, st.byPid[pid], payload, video)
      case Closed(_) =>
        ClosedCounted(caps, st, pid);
      case Kept(part) =>
        GrownCounted(caps, st, pid, part, |payload|);
        SettledAccounted(caps, Store(st.byPid[pid := part], st.buffered + |payload|), pid);
    }
  }

  /** Every push keeps the byte count exact and both caps: the counter never saturates. */
  lemma PushAccounted(caps: Caps, st: Store, pid: Pid, payload: seq<byte>, start: bool, randomAccess: bool, video: bool)
    requires Accounted(caps, st)
    ensures Accounted(caps, Pushed(caps, st, pid, payload, start, randomAccess, video).0)
  {
    OpenedAccounted(caps, st, pid, randomAccess);
    var st1 := if start then Opened(st, pid, randomAccess).0 else st;
    AddedAccounted(caps, st1, pid, payload, video);
  }

  lemma MarkAccounted(caps: Caps, st: Store, pid: Pid)
    requires Accounted(caps, st)
    ensures Accounted(caps, MarkedDamaged(st, pid))
  {
    HeldDiffers(st.byPid, MarkedDamaged(st, pid).byPid, pid, 0x2000);
  }
}
