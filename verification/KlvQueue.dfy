/** The queue object itself (`KlvQueue`), each method proved against the state machine. */
module KlvQueueModel {
  import opened Bytes
  import opened D = KlvDelivery

  /** `fnv1a` */
  method Fnv1a(bytes: seq<byte>) returns (h: bv32)
    ensures h == FnvFrom(0x811c_9dc5, bytes)
  {
    h := 0x811c_9dc5;
    for i := 0 to |bytes|
      invariant FnvFrom(h, bytes[i..]) == FnvFrom(0x811c_9dc5, bytes)
    {
      assert bytes[i..][1..] == bytes[i + 1..];
      h := FnvStep(h, bytes[i]);
    }
  }

  class KlvQueue {
    const dedupe: bool
    const pendingMax: nat
    var paintLocked: bool
    var pending: seq<Frame>
    var seen: seq<Key>
    var delivered: seq<Record>          // the calls of `onKlv` so far
    ghost var suppressed: seq<Record>
    ghost var cleared: seq<Record>

    ghost function View(): State
      reads this
    {
      State(pending, paintLocked, Log(seen, delivered, suppressed), cleared)
    }

    ghost function Cfg(): Config { Config(dedupe, pendingMax) }

    constructor (dedupe: bool, paintLocked: bool, pendingMax: nat)
      ensures View() == Init(paintLocked) && Cfg() == Config(dedupe, pendingMax)
    {
      this.dedupe, this.paintLocked, this.pendingMax := dedupe, paintLocked, pendingMax;
      pending, seen, delivered, suppressed, cleared := [], [], [], [], [];
    }

    method Emit(rec: Record)
      modifies this`seen, this`delivered, this`suppressed
      ensures View() == old(View()).(log := D.Emit(dedupe, old(View()).log, rec))
    {
      if dedupe {
        var h := Fnv1a(rec.bytes);
        var k := Key(rec.rtp, rec.pts, |rec.bytes|, h);
        if k in seen {
          suppressed := suppressed + [rec];
          return;
        }
        seen := seen + [k];
        if |seen| > SEEN_KEYS_MAX { seen := seen[1..]; }
      }
      delivered := delivered + [rec];
    }

    method EmitFrame(list: seq<Record>)
      modifies this`seen, this`delivered, this`suppressed
      ensures View() == old(View()).(log := D.EmitAll(dedupe, old(View()).log, FrameOrder(list)))
    {
      EmitVia(list, Sei);
      EmitVia(list, Dc);
      EmitAllConcat(dedupe, old(View()).log, Only(Sei, list), Only(Dc, list));
    }

    /** One pass of `emitFrame` over the list. */
    method EmitVia(list: seq<Record>, via: Via)
      modifies this`seen, this`delivered, this`suppressed
      ensures View() == old(View()).(log := D.EmitAll(dedupe, old(View()).log, Only(via, list)))
    {
      for i := 0 to |list|
        invariant View() == old(View()).(log := View().log)
        invariant EmitAll(dedupe, View().log, Only(via, list[i..])) == EmitAll(dedupe, old(View()).log, Only(via, list))
      {
        assert list[i..][1..] == list[i + 1..];
        if list[i].via == via {
          assert Only(via, list[i..]) == [list[i]] + Only(via, list[i + 1..]);
          assert Only(via, list[i..])[1..] == Only(via, list[i + 1..]);
          Emit(list[i]);
        } else {
          assert Only(via, list[i..]) == Only(via, list[i + 1..]);
        }
      }
    }

    method Push(rec: Record)
      modifies this`pending, this`seen, this`delivered, this`suppressed
      ensures View() == D.Push(Cfg(), old(View()), rec)
    {
      if !paintLocked || rec.rtp == None {
        Emit(rec);
        return;
      }
      pending := Added(pending, rec.rtp.value, rec);
      while |pending| > pendingMax
        invariant Backstop(Cfg(), View()) == D.Push(Cfg(), old(View()), rec)
        decreases |pending|
      {
        var oldest := pending[0].recs;
        pending := pending[1..];
        EmitFrame(oldest);
      }
    }

    /** The due frames are taken out of `pending` one by one, in serial order, and emitted. */
    method Painted(ts: u32)
      modifies this`pending, this`seen, this`delivered, this`suppressed
      ensures View() == D.Painted(Cfg(), old(View()), ts)
    {
      var due := Sorted(DueKeys(pending, ts), ts);
      for i := 0 to |due|
        invariant PaintKeys(Cfg(), View(), due[i..]) == D.Painted(Cfg(), old(View()), ts)
      {
        assert due[i..][1..] == due[i + 1..];
        var list := RecsAt(pending, due[i]);
        pending := Without(pending, due[i]);
        EmitFrame(list);
      }
    }

    /** All of `pending` goes out in arrival order, and from then on a push emits at once. */
    method FlushAll()
      modifies this`paintLocked, this`pending, this`seen, this`delivered, this`suppressed
      ensures View() == D.FlushAll(Cfg(), old(View()))
    {
      paintLocked := false;
      for i := 0 to |pending|
        invariant View() == old(View()).(locked := false, log := View().log)
        invariant EmitFrames(dedupe, View().log, pending[i..]) == D.FlushAll(Cfg(), old(View())).log
      {
        assert pending[i..][1..] == pending[i + 1..];
        EmitFrame(pending[i].recs);
      }
      pending := [];
    }

    /** `pending` is emptied into the ghost list of dropped records; the log stays. */
    method Clear()
      modifies this`pending, this`cleared
      ensures View() == D.Clear(old(View()))
    {
      cleared := cleared + Waiting(pending);
      pending := [];
    }
  }
}
