/** The muxer's output stage as the object it is: an array of continuity counters and a queue
    of packets. */
module TsMuxerModel {
  import opened Bytes
  import opened TsPacket
  import opened TsMux

  /** What is queued and what is still to be cut make `goal`, with the counter then at `last`. */
  ghost predicate Draining(pid: Pid, af: Adaptation, scratch: Scratch, cursor: nat, cc: Counter,
                           queue: seq<seq<byte>>, goal: seq<seq<byte>>, last: Counter)
  {
    && cursor <= |scratch|
    && queue + Raws(pid, PiecesFrom(af, scratch, cursor, cc)) == goal
    && (cc + |PiecesFrom(af, scratch, cursor, cc)|) % 16 == last
  }

  lemma DrainStep(pid: Pid, af: Adaptation, scratch: Scratch, cursor: nat, cc: Counter,
                  queue: seq<seq<byte>>, goal: seq<seq<byte>>, last: Counter)
    requires cursor < |scratch| && Draining(pid, af, scratch, cursor, cc, queue, goal, last)
    ensures var a := if cursor == 0 then af else NOTHING;
            Draining(pid, af, scratch, cursor + Consumed(a, |scratch| - cursor), Next(cc),
                     queue + [Packet(pid, cursor == 0, a, scratch[cursor..], cc)], goal, last)
  {
    hide Packet;
    var x := PieceAt(af, scratch, cursor, cc);
    var rest := PiecesFrom(af, scratch, x.End(), Next(cc));
    NextMany(cc, |rest|);
    RawsCons(pid, x, rest);
    Regroup(queue, Raw(pid, x), Raws(pid, rest));
  }

  lemma Regroup(q: seq<seq<byte>>, p: seq<byte>, rest: seq<seq<byte>>)
    ensures q + ([p] + rest) == q + [p] + rest
  {
  }

  lemma DrainStart(pid: Pid, af: Adaptation, scratch: Scratch, cc: Counter, queue: seq<seq<byte>>)
    ensures var xs := PiecesOf(af, scratch, cc);
            Draining(pid, af, scratch, 0, cc, queue, queue + Raws(pid, xs), (cc + |xs|) % 16)
  {
  }

  lemma DrainDone(pid: Pid, af: Adaptation, scratch: Scratch, cc: Counter,
                  queue: seq<seq<byte>>, goal: seq<seq<byte>>, last: Counter)
    requires Draining(pid, af, scratch, |scratch|, cc, queue, goal, last)
    ensures queue == goal && cc == last
  {
  }

  lemma DrainIsSend(c: Counters, pid: Pid, af: Adaptation, scratch: Scratch)
    ensures var xs := PiecesOf(af, scratch, c[pid]);
            && Raws(pid, xs) == Emitted(c, Send(pid, af, scratch))
            && c[pid := (c[pid] + |xs|) % 16] == Advanced(c, Send(pid, af, scratch))
  {
  }

  class TsMuxer {
    const counters: array<Counter>
    var queue: seq<seq<byte>>

    ghost predicate Valid()
      reads this
    {
      counters.Length == 0x2000
    }

    constructor ()
      ensures Valid() && fresh(counters) && queue == [] && counters[..] == seq(0x2000, _ => 0)
    {
      counters := new Counter[0x2000](_ => 0);
      queue := [];
      new;
      assert counters[..] == seq(0x2000, _ => 0);
    }

    /** The next counter of a PID, moving it on. */
    method NextCounter(pid: Pid) returns (cc: Counter)
      requires Valid()
      modifies counters
      ensures cc == old(counters[pid]) && counters[..] == old(counters[..])[pid := Next(cc)]
    {
      cc := counters[pid];
      counters[pid] := (cc + 1) % 16;
    }

    /** One packet to the queue. */
    method PutPacket(pid: Pid, start: bool, af: Adaptation, payload: seq<byte>) returns (consumed: nat)
      requires Valid()
      modifies this, counters
      ensures Valid() && consumed == Consumed(af, |payload|)
      ensures queue == old(queue) + [Packet(pid, start, af, payload, old(counters[pid]))]
      ensures counters[..] == old(counters[..])[pid := Next(old(counters[pid]))]
    {
      var cc := NextCounter(pid);
      var packet := new byte[PACKET];
      consumed := WritePacket(packet, pid, start, af, payload, cc);
      queue := queue + [packet[..]];
    }

    /** The next packet of the scratch buffer. */
    method Cut(pid: Pid, af: Adaptation, scratch: Scratch, cursor: nat, ghost goal: seq<seq<byte>>, ghost last: Counter)
      returns (next: nat)
      requires Valid() && cursor < |scratch| && Draining(pid, af, scratch, cursor, counters[pid], queue, goal, last)
      modifies this, counters
      ensures Valid() && cursor < next <= |scratch| && Draining(pid, af, scratch, next, counters[pid], queue, goal, last)
      ensures counters[..] == old(counters[..])[pid := counters[pid]]
    {
      hide Draining, Packet;
      DrainStep(pid, af, scratch, cursor, counters[pid], queue, goal, last);
      var consumed := PutPacket(pid, cursor == 0, if cursor == 0 then af else NOTHING, scratch[cursor..]);
      next := cursor + consumed;
    }

    /** The loop: every packet of the scratch buffer is cut. */
    method CutAll(pid: Pid, af: Adaptation, scratch: Scratch, ghost goal: seq<seq<byte>>, ghost last: Counter)
      requires Valid() && Draining(pid, af, scratch, 0, counters[pid], queue, goal, last)
      modifies this, counters
      ensures Valid() && queue == goal && counters[..] == old(counters[..])[pid := last]
    {
      ghost var c0: seq<Counter> := counters[..];
      assert c0[pid := counters[pid]] == c0;
      var cursor := 0;
      while cursor < |scratch|
        invariant Valid() && Draining(pid, af, scratch, cursor, counters[pid], queue, goal, last)
        invariant counters[..] == c0[pid := counters[pid]]
      {
        cursor := Cut(pid, af, scratch, cursor, goal, last);
      }
      DrainDone(pid, af, scratch, counters[pid], queue, goal, last);
    }

    /** `drain_pes_scratch` */
    method DrainPes(pid: Pid, af: Adaptation, scratch: Scratch)
      requires Valid()
      modifies this, counters
      ensures Valid()
      ensures queue == old(queue) + Emitted(old(counters[..]), Send(pid, af, scratch))
      ensures counters[..] == Advanced(old(counters[..]), Send(pid, af, scratch))
    {
      hide Draining, Emitted, Advanced, PiecesOf;
      ghost var cc := counters[pid];
      ghost var xs := PiecesOf(af, scratch, cc);
      DrainIsSend(counters[..], pid, af, scratch);
      DrainStart(pid, af, scratch, cc, queue);
      CutAll(pid, af, scratch, queue + Raws(pid, xs), (cc + |xs|) % 16);
    }

    /** `write_pcr_only_packet`: the counters stay as they are. */
    method Heartbeat(pid: Pid, pcr: u64)
      requires Valid()
      modifies this
      ensures Valid() && counters[..] == old(counters[..])
      ensures queue == old(queue) + Emitted(old(counters[..]), Beat(pid, pcr))
    {
      queue := queue + [PcrOnlyPacket(pid, pcr, counters[pid])];
    }
  }
}
