/** The player's KLV emission queue as a state machine: paint-locked delivery in 32-bit serial
    order (section 3.2 of RFC 1982 over the RTP timestamp of section 5.1 of RFC 3550), a
    bounded backlog, and a first-in-first-out dedupe window. */
module KlvDelivery {
  import opened Bytes

  const SEEN_KEYS_MAX := 4096

  datatype Via = Sei | Dc

  datatype Record = Record(rtp: Option<u32>, pts: u64, bytes: seq<byte>, via: Via)

  datatype Key = Key(rtp: Option<u32>, pts: u64, len: nat, hash: bv32)

  /** One step of 32-bit FNV-1a. */
  function FnvStep(h: bv32, b: byte): bv32 { (h ^ (b as bv32)) * 0x0100_0193 }

  function FnvFrom(h: bv32, bytes: seq<byte>): bv32
    decreases |bytes|
  {
    if bytes == [] then h else FnvFrom(FnvStep(h, bytes[0]), bytes[1..])
  }

  function KeyOf(r: Record): Key {
    Key(r.rtp, r.pts, |r.bytes|, FnvFrom(0x811c_9dc5, r.bytes))
  }

  /** Going forward from `a` one meets `b` within half the 32-bit circle (RFC 1982). */
  predicate RtpAtOrBefore(a: u32, b: u32) {
    (b - a) % U32_MOD < 0x8000_0000
  }

  /** The value of `x | 0`: the low 32 bits as a signed integer. */
  function Signed32(x: int): (r: int)
  {
    (x + 0x8000_0000) % U32_MOD - 0x8000_0000
  }

  /** What has left the queue: dedupe memory, deliveries to `onKlv`, suppressed copies. */
  datatype Log = Log(seen: seq<Key>, out: seq<Record>, dup: seq<Record>)

  function Emit(dedupe: bool, log: Log, r: Record): (l: Log)
  {
    if !dedupe then log.(out := log.out + [r])
    else if KeyOf(r) in log.seen then log.(dup := log.dup + [r])
    else
      var seen := log.seen + [KeyOf(r)];
      Log(if |seen| > SEEN_KEYS_MAX then seen[1..] else seen, log.out + [r], log.dup)
  }

  function EmitAll(dedupe: bool, log: Log, recs: seq<Record>): (l: Log)
    decreases |recs|
  {
    if recs == [] then log else EmitAll(dedupe, Emit(dedupe, log, recs[0]), recs[1..])
  }

  function Only(via: Via, recs: seq<Record>): (r: seq<Record>)
  {
    if recs == [] then [] else (if recs[0].via == via then [recs[0]] else []) + Only(via, recs[1..])
  }

  /** A frame's records as they are emitted: those of the SEI, then those of the data channel. */
  function FrameOrder(recs: seq<Record>): seq<Record> { Only(Sei, recs) + Only(Dc, recs) }

  /** One entry of the insertion-ordered `pending` map. */
  datatype Frame = Frame(ts: u32, recs: seq<Record>)

  function EmitFrames(dedupe: bool, log: Log, frames: seq<Frame>): (l: Log)
    decreases |frames|
  {
    if frames == [] then log
    else EmitFrames(dedupe, EmitAll(dedupe, log, FrameOrder(frames[0].recs)), frames[1..])
  }

  datatype Config = Config(dedupe: bool, pendingMax: nat)

  datatype State = State(pending: seq<Frame>, locked: bool, log: Log, cleared: seq<Record>)

  function Init(locked: bool): State { State([], locked, Log([], [], []), []) }

  /** `pending` with `r` at the end of its frame's list, a new frame last. */
  function Added(pending: seq<Frame>, ts: u32, r: Record): (p: seq<Frame>)
  {
    if pending == [] then [Frame(ts, [r])]
    else if pending[0].ts == ts then [Frame(ts, pending[0].recs + [r])] + pending[1..]
    else [pending[0]] + Added(pending[1..], ts, r)
  }

  /** The backstop: the oldest frames go out until at most `pendingMax` wait. */
  function Backstop(c: Config, s: State): (r: State)
    decreases |s.pending|
  {
    if |s.pending| <= c.pendingMax then s
    else Backstop(c, s.(pending := s.pending[1..],
                        log := EmitAll(c.dedupe, s.log, FrameOrder(s.pending[0].recs))))
  }

  function Push(c: Config, s: State, r: Record): (s': State)
  {
    if !s.locked || r.rtp == None then s.(log := Emit(c.dedupe, s.log, r))
    else Backstop(c, s.(pending := Added(s.pending, r.rtp.value, r)))
  }

  /** The keys of `pending` at or before `ts`. */
  function DueKeys(pending: seq<Frame>, ts: u32): (r: seq<u32>)
  {
    if pending == [] then []
    else (if RtpAtOrBefore(pending[0].ts, ts) then [pending[0].ts] else []) + DueKeys(pending[1..], ts)
  }

  /** `t` at its place in a list ordered by `(t - ts) | 0`. */
  function Placed(t: u32, keys: seq<u32>, ts: u32): (r: seq<u32>)
  {
    if keys == [] || Signed32(t - ts) <= Signed32(keys[0] - ts) then [t] + keys
    else [keys[0]] + Placed(t, keys[1..], ts)
  }

  function Sorted(keys: seq<u32>, ts: u32): (r: seq<u32>)
  {
    if keys == [] then [] else Placed(keys[0], Sorted(keys[1..], ts), ts)
  }

  /** The list waiting under `t`. */
  function RecsAt(pending: seq<Frame>, t: u32): (r: seq<Record>)
  {
    if pending == [] then [] else if pending[0].ts == t then pending[0].recs else RecsAt(pending[1..], t)
  }

  /** `pending` after `delete(t)`. */
  function Without(pending: seq<Frame>, t: u32): (r: seq<Frame>)
  {
    if pending == [] then []
    else if pending[0].ts == t then pending[1..]
    else [pending[0]] + Without(pending[1..], t)
  }

  /** Takes each key's list out of `pending` and emits it. */
  function PaintKeys(c: Config, s: State, keys: seq<u32>): (s': State)
    decreases |keys|
  {
    if keys == [] then s
    else PaintKeys(c, s.(pending := Without(s.pending, keys[0]),
                         log := EmitAll(c.dedupe, s.log, FrameOrder(RecsAt(s.pending, keys[0])))),
                   keys[1..])
  }

  function Painted(c: Config, s: State, ts: u32): (s': State)
  {
    PaintKeys(c, s, Sorted(DueKeys(s.pending, ts), ts))
  }

  function FlushAll(c: Config, s: State): (s': State)
  {
    s.(pending := [], locked := false, log := EmitFrames(c.dedupe, s.log, s.pending))
  }

  /** The records waiting, in the order of `pending`. */
  function Waiting(pending: seq<Frame>): (r: seq<Record>)
  {
    if pending == [] then [] else pending[0].recs + Waiting(pending[1..])
  }

  function Clear(s: State): (s': State)
  {
    s.(pending := [], cleared := s.cleared + Waiting(s.pending))
  }

  datatype Op = PushOp(r: Record) | PaintedOp(ts: u32) | FlushOp | ClearOp

  function Step(c: Config, s: State, op: Op): (s': State)
  {
    match op
    case PushOp(r) => Push(c, s, r)
    case PaintedOp(ts) => Painted(c, s, ts)
    case FlushOp => FlushAll(c, s)
    case ClearOp => Clear(s)
  }

  /** Every run of the queue, from a fresh one. */
  function Run(c: Config, locked: bool, ops: seq<Op>): (s: State)
  {
    if ops == [] then Init(locked)
    else Step(c, Run(c, locked, ops[..|ops| - 1]), ops[|ops| - 1])
  }

  function PushedRecords(ops: seq<Op>): (r: seq<Record>)
  {
    if ops == [] then []
    else PushedRecords(ops[..|ops| - 1]) + match ops[|ops| - 1] case PushOp(r) => [r] case _ => []
  }

  lemma {:induction false} EmitAllConcat(dedupe: bool, log: Log, a: seq<Record>, b: seq<Record>)
    ensures EmitAll(dedupe, log, a + b) == EmitAll(dedupe, EmitAll(dedupe, log, a), b)
    decreases |a|
  {
    if a == [] {
      assert a + b == b;
    } else {
      assert (a + b)[1..] == a[1..] + b;
      EmitAllConcat(dedupe, Emit(dedupe, log, a[0]), a[1..], b);
    }
  }
}
