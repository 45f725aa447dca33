/** When two publishers of one name can be live at once: exactly when a caller of the name was
    let in while another one was still on its way or serving. */
module ListenerRace {
  import opened Bytes
  import opened ListenerRules

  // ---- callers on their way or serving -----------------------------------------------

  /** Callers of `n` whose handshake is done and that `accept` has not returned yet. */
  function Queued(queue: seq<Option<Name>>, n: Name): nat
  {
    if queue == [] then 0 else (if StreamId(queue[0]) == Some(n) then 1 else 0) + Queued(queue[1..], n)
  }

  /** Workers of `n` still copying. One in its epilogue can no longer be overtaken: it holds
      the lock that counting needs. */
  function Copying(workers: seq<Worker>, n: Name): nat
  {
    if workers == [] then 0
    else Copying(workers[..|workers| - 1], n) + if workers[|workers| - 1] == Worker(Some(n), Running) then 1 else 0
  }

  function InHand(a: Acceptor, n: Name): nat
  {
    if a == Got(Some(n)) || a == Counted(n) || a == Marked(n) then 1 else 0
  }

  function Load(s: State, n: Name): nat
  {
    Queued(s.queue, n) + InHand(s.acceptor, n) + Copying(s.workers, n)
  }

  /** One publisher at most, and no second one to come. */
  ghost predicate Single(s: State, n: Name)
  {
    Publishers(s, n) <= 1 && Load(s, n) <= 1
  }

  // ---- counting ----------------------------------------------------------------------

  lemma {:induction false} QueuedSnoc(queue: seq<Option<Name>>, id: Option<Name>, n: Name)
    ensures Queued(queue + [id], n) == Queued(queue, n) + if StreamId(id) == Some(n) then 1 else 0
  {
    if queue == [] {
      assert (queue + [id])[1..] == [];
    } else {
      assert (queue + [id])[1..] == queue[1..] + [id];
      QueuedSnoc(queue[1..], id, n);
    }
  }

  lemma CopyingSnoc(workers: seq<Worker>, w: Worker, n: Name)
    ensures Copying(workers + [w], n) == Copying(workers, n) + if w == Worker(Some(n), Running) then 1 else 0
  {
    assert (workers + [w])[..|workers|] == workers;
  }

  lemma {:induction false} CopyingUpdate(workers: seq<Worker>, i: nat, w: Worker, n: Name)
    requires i < |workers|
    ensures Copying(workers[i := w], n) + (if workers[i] == Worker(Some(n), Running) then 1 else 0)
         == Copying(workers, n) + (if w == Worker(Some(n), Running) then 1 else 0)
  {
    var last := |workers| - 1;
    if i == last {
      assert workers[i := w][..last] == workers[..last];
    } else {
      assert workers[i := w][..last] == workers[..last][i := w];
      CopyingUpdate(workers[..last], i, w, n);
    }
  }

  /** A counted worker is copying, or is the one that holds the lock. */
  lemma {:induction false} WorkersCopying(workers: seq<Worker>, n: Name)
    requires forall i | 0 <= i < |workers| :: workers[i].pc != Locked
    ensures WorkersOf(workers, n) == Copying(workers, n)
  {
    if workers != [] {
      WorkersCopying(workers[..|workers| - 1], n);
    }
  }

  lemma {:induction false} WorkersCopyingBut(workers: seq<Worker>, h: nat, n: Name)
    requires h < |workers| && forall i | 0 <= i < |workers| && i != h :: workers[i].pc != Locked
    ensures WorkersOf(workers, n) == Copying(workers, n) + if workers[h] == Worker(Some(n), Locked) then 1 else 0
  {
    var last := |workers| - 1;
    if h == last {
      WorkersCopying(workers[..last], n);
    } else {
      WorkersCopyingBut(workers[..last], h, n);
    }
  }

  /** The worker of `n` inside its epilogue, still counted. */
  function Leaving(s: State, n: Name): nat
  {
    if s.lock.Some? && s.lock.value < |s.workers| && s.workers[s.lock.value] == Worker(Some(n), Locked) then 1 else 0
  }

  lemma PublishersSplit(s: State, n: Name)
    requires LockOk(s)
    ensures WorkersOf(s.workers, n) == Copying(s.workers, n) + Leaving(s, n)
  {
    if s.lock.Some? {
      assert forall i | 0 <= i < |s.workers| && i != s.lock.value :: !Holding(s.workers[i].pc);
      WorkersCopyingBut(s.workers, s.lock.value, n);
    } else {
      assert forall i | 0 <= i < |s.workers| :: !Holding(s.workers[i].pc);
      WorkersCopying(s.workers, n);
    }
  }

  // ---- one step ----------------------------------------------------------------------

  predicate Admits(cfg: Config, s: State, e: Event, n: Name)
  {
    e.Handshake? && StreamId(e.id) == Some(n) && !Decide(cfg, s.rules, e.id).Reject?
  }

  /** A step of one worker: its name's load and publishers can only fall. */
  lemma WorkerStep(s: State, w: nat, pc: Pc, n: Name)
    requires w < |s.workers| && pc != Running && (pc == Locked ==> s.workers[w].pc == Running)
    ensures Copying(SetPc(s, w, pc).workers, n) <= Copying(s.workers, n)
    ensures WorkersOf(SetPc(s, w, pc).workers, n) <= WorkersOf(s.workers, n)
  {
    CopyingUpdate(s.workers, w, s.workers[w].(pc := pc), n);
    WorkersOfUpdate(s.workers, w, s.workers[w].(pc := pc), n);
  }

  /** What a worker's own step leaves alone and lowers. */
  ghost predicate Falls(s: State, t: State, n: Name)
  {
    && t.queue == s.queue && t.acceptor == s.acceptor
    && Copying(t.workers, n) <= Copying(s.workers, n) && WorkersOf(t.workers, n) <= WorkersOf(s.workers, n)
  }

  predicate OfWorker(e: Event) { e.Lock? || e.Decrement? || e.Restore? || e.Unlock? }

  lemma WorkerFalls(cfg: Config, s: State, e: Event, n: Name)
    requires OfWorker(e)
    ensures Falls(s, Next(cfg, s, e), n)
  {
    hide Copying, WorkersOf;
    if e.w < |s.workers| {
      match e
      case Lock(w) =>
        if AtPc(s, w, Running) {
          WorkerStep(s, w, Ended, n);
          WorkerStep(s, w, Locked, n);
        }
      case Decrement(w) =>
        WorkerStep(s, w, Zero, n);
        WorkerStep(s, w, Done, n);
      case Restore(w) =>
        WorkerStep(s, w, Done, n);
      case Unlock(w) =>
        WorkerStep(s, w, Ended, n);
    }
  }

  lemma SpawnLoad(cfg: Config, s: State, n: Name)
    ensures var t := Next(cfg, s, Spawn); Load(t, n) == Load(s, n) && Publishers(t, n) == Publishers(s, n)
  {
    hide Queued, Copying, WorkersOf;
    if s.acceptor.Marked? {
      CopyingSnoc(s.workers, Worker(Some(s.acceptor.name), Running), n);
      WorkersOfSnoc(s.workers, Worker(Some(s.acceptor.name), Running), n);
    } else if s.acceptor == Got(None) {
      CopyingSnoc(s.workers, Worker(None, Running), n);
      WorkersOfSnoc(s.workers, Worker(None, Running), n);
    }
  }

  /** Only a handshake that is let in adds to the load, and by one. */
  lemma LoadStep(cfg: Config, s: State, e: Event, n: Name)
    ensures Load(Next(cfg, s, e), n) <= Load(s, n) + if Admits(cfg, s, e, n) then 1 else 0
    ensures Admits(cfg, s, e, n) ==> Load(Next(cfg, s, e), n) == Load(s, n) + 1
  {
    if OfWorker(e) {
      hide Next, Copying;
      WorkerFalls(cfg, s, e, n);
    } else if e.Spawn? {
      SpawnLoad(cfg, s, n);
    } else if e.Handshake? {
      QueuedSnoc(s.queue, e.id, n);
    }
  }

  /** Only counting adds a publisher. */
  lemma PublishersFall(cfg: Config, s: State, e: Event, n: Name)
    requires !e.Count?
    ensures Publishers(Next(cfg, s, e), n) <= Publishers(s, n)
  {
    if OfWorker(e) {
      hide Next, WorkersOf;
      WorkerFalls(cfg, s, e, n);
    } else if e.Spawn? {
      SpawnLoad(cfg, s, n);
    }
  }

  /** Counting waits for the lock, so no publisher is added while one is leaving. */
  lemma PublishersStep(cfg: Config, s: State, e: Event, n: Name)
    requires LockOk(s) && Single(s, n) && Load(Next(cfg, s, e), n) <= 1
    ensures Publishers(Next(cfg, s, e), n) <= 1
  {
    if !e.Count? {
      PublishersFall(cfg, s, e, n);
    } else if s.lock == None {
      var t := Next(cfg, s, e);
      assert t.workers == s.workers && t.lock == None;
      PublishersSplit(t, n);
    }
  }

  // ---- runs --------------------------------------------------------------------------

  /** A run continued. */
  function Steps(cfg: Config, s: State, more: seq<Event>): (t: State)
    decreases |more|
  {
    if more == [] then s else Steps(cfg, Next(cfg, s, more[0]), more[1..])
  }

  lemma {:induction false} StepsRun(cfg: Config, events: seq<Event>, more: seq<Event>)
    ensures Steps(cfg, Run(cfg, events), more) == Run(cfg, events + more)
    decreases |more|
  {
    if more == [] {
      assert events + more == events;
    } else {
      RunSnoc(cfg, events, more[0]);
      StepsRun(cfg, events + [more[0]], more[1..]);
      assert events + [more[0]] + more[1..] == events + more;
    }
  }

  lemma {:induction false} StepsConcat(cfg: Config, s: State, a: seq<Event>, b: seq<Event>)
    ensures Steps(cfg, s, a + b) == Steps(cfg, Steps(cfg, s, a), b)
    decreases |a|
  {
    if a == [] {
      assert a + b == b;
    } else {
      assert (a + b)[0] == a[0] && (a + b)[1..] == a[1..] + b;
      StepsConcat(cfg, Next(cfg, s, a[0]), a[1..], b);
    }
  }

  /** Every caller of `n` let in so far found nobody of that name on the way or serving. */
  predicate Spaced(cfg: Config, events: seq<Event>, n: Name)
  {
    events == []
    || (var before, e := events[..|events| - 1], events[|events| - 1];
        Spaced(cfg, before, n) && (Admits(cfg, Run(cfg, before), e, n) ==> Load(Run(cfg, before), n) == 0))
  }

  /** Then no name ever has two publishers. */
  lemma {:induction false} SpacedIsSingle(cfg: Config, events: seq<Event>, n: Name)
    requires Spaced(cfg, events, n)
    ensures Single(Run(cfg, events), n)
  {
    if events != [] {
      var before, e := events[..|events| - 1], events[|events| - 1];
      SpacedIsSingle(cfg, before, n);
      RunInv(cfg, before);
      LoadStep(cfg, Run(cfg, before), e, n);
      PublishersStep(cfg, Run(cfg, before), e, n);
    }
  }

  // ---- and otherwise two publishers can be had ----------------------------------------

  /** The lock holder's steps to the end of its epilogue. */
  function Release(w: nat): seq<Event> { [Decrement(w), Restore(w), Unlock(w)] }

  /** The accept thread's steps with the caller in hand, and with the next one. */
  function Finish(): seq<Event> { [Count, SetConflict, Spawn] }

  lemma UpdateKeepsCopying(s: State, w: nat, pc: Pc, n: Name)
    requires w < |s.workers| && s.workers[w].pc != Running && pc != Running
    ensures Copying(SetPc(s, w, pc).workers, n) == Copying(s.workers, n)
  {
    CopyingUpdate(s.workers, w, s.workers[w].(pc := pc), n);
  }

  /** Every step of the holder leaves the queue, the caller in hand and the load alone. */
  ghost predicate SameLoad(s: State, t: State, n: Name)
  {
    t.queue == s.queue && t.acceptor == s.acceptor && Copying(t.workers, n) == Copying(s.workers, n)
  }

  lemma HolderStep(cfg: Config, s: State, e: Event, n: Name)
    requires (e.Decrement? || e.Restore? || e.Unlock?)
    ensures SameLoad(s, Next(cfg, s, e), n)
  {
    hide Copying;
    match e
    case Decrement(w) =>
      if AtPc(s, w, Locked) {
        UpdateKeepsCopying(s, w, Zero, n);
        UpdateKeepsCopying(s, w, Done, n);
      }
    case Restore(w) =>
      if AtPc(s, w, Zero) {
        UpdateKeepsCopying(s, w, Done, n);
      }
    case Unlock(w) =>
      if AtPc(s, w, Done) {
        UpdateKeepsCopying(s, w, Ended, n);
      }
    case _ =>
  }

  /** The holder's place after each of its steps. */
  lemma HolderDecrements(cfg: Config, s: State, w: nat)
    requires Inv(cfg, s) && s.lock == Some(w)
    ensures var t := Next(cfg, s, Decrement(w));
            && Inv(cfg, t) && t.lock == Some(w) && w < |t.workers|
            && (t.workers[w].pc == Zero || t.workers[w].pc == Done)
  {
    StepInv(cfg, s, Decrement(w));
    assert Holding(s.workers[w].pc) && s.workers[w].id.Some?;
  }

  lemma HolderRestores(cfg: Config, s: State, w: nat)
    requires Inv(cfg, s) && s.lock == Some(w) && (s.workers[w].pc == Zero || s.workers[w].pc == Done)
    ensures var t := Next(cfg, s, Restore(w)); Inv(cfg, t) && t.lock == Some(w) && AtPc(t, w, Done)
  {
    StepInv(cfg, s, Restore(w));
    assert s.workers[w].id.Some?;
  }

  lemma StepInv(cfg: Config, s: State, e: Event)
    requires Inv(cfg, s)
    ensures Inv(cfg, Next(cfg, s, e))
  {
    LockStep(cfg, s, e);
    NeverFails(cfg, s, e);
    forall n ensures NameOk(cfg, Next(cfg, s, e), n) { NameStep(cfg, s, e, n); }
  }

  lemma Released(cfg: Config, s: State, w: nat, n: Name)
    requires Inv(cfg, s) && s.lock == Some(w)
    ensures var t := Steps(cfg, s, Release(w));
            Inv(cfg, t) && t.lock == None && Load(t, n) == Load(s, n)
  {
    var a := Next(cfg, s, Decrement(w));
    var b := Next(cfg, a, Restore(w));
    HolderDecrements(cfg, s, w);
    HolderRestores(cfg, a, w);
    StepInv(cfg, b, Unlock(w));
    ThreeSteps(cfg, s, Decrement(w), Restore(w), Unlock(w));
    HolderStep(cfg, s, Decrement(w), n);
    HolderStep(cfg, a, Restore(w), n);
    HolderStep(cfg, b, Unlock(w), n);
  }

  lemma StepsCons(cfg: Config, s: State, e: Event, more: seq<Event>)
    ensures Steps(cfg, s, [e] + more) == Steps(cfg, Next(cfg, s, e), more)
  {
    assert ([e] + more)[1..] == more;
  }

  lemma ThreeSteps(cfg: Config, s: State, a: Event, b: Event, c: Event)
    ensures Steps(cfg, s, [a, b, c]) == Next(cfg, Next(cfg, Next(cfg, s, a), b), c)
  {
    hide Next;
    assert [a, b, c] == [a] + ([b] + ([c] + []));
    StepsCons(cfg, s, a, [b] + ([c] + []));
    StepsCons(cfg, Next(cfg, s, a), b, [c] + []);
    StepsCons(cfg, Next(cfg, Next(cfg, s, a), b), c, []);
  }

  /** With the lock free, the accept thread's own steps keep the load. */
  lemma AcceptorStep(cfg: Config, s: State, e: Event, n: Name)
    requires (e.AcceptCaller? || e.Count? || e.SetConflict? || e.Spawn?) && s.lock == None
    ensures var t := Next(cfg, s, e); t.lock == None && Load(t, n) == Load(s, n)
  {
    if e.Spawn? {
      SpawnLoad(cfg, s, n);
    }
  }

  lemma FinishPlaces(cfg: Config, s: State)
    requires s.lock == None
    ensures var t := Next(cfg, Next(cfg, Next(cfg, s, Count), SetConflict), Spawn);
            t.lock == None && t.acceptor == Idle && t.queue == s.queue
  {
  }

  /** The caller in hand is served: a worker runs for it. */
  lemma Finished(cfg: Config, s: State, n: Name)
    requires s.lock == None
    ensures var t := Steps(cfg, s, Finish());
            t.lock == None && t.acceptor == Idle && t.queue == s.queue && Load(t, n) == Load(s, n)
  {
    FinishPlaces(cfg, s);
    ThreeSteps(cfg, s, Count, SetConflict, Spawn);
    hide Next, Load;
    var a := Next(cfg, s, Count);
    var b := Next(cfg, a, SetConflict);
    AcceptorStep(cfg, s, Count, n);
    AcceptorStep(cfg, a, SetConflict, n);
    AcceptorStep(cfg, b, Spawn, n);
  }

  /** Serves everybody in the queue. */
  function ServeAll(count: nat): seq<Event>
  {
    if count == 0 then [] else [AcceptCaller] + Finish() + ServeAll(count - 1)
  }

  lemma {:induction false} Served(cfg: Config, s: State, n: Name)
    requires s.lock == None && s.acceptor == Idle
    ensures var t := Steps(cfg, s, ServeAll(|s.queue|));
            t.lock == None && t.acceptor == Idle && t.queue == [] && Load(t, n) == Load(s, n)
    decreases |s.queue|
  {
    if s.queue != [] {
      var a := Next(cfg, s, AcceptCaller);
      AcceptorStep(cfg, s, AcceptCaller, n);
      Finished(cfg, a, n);
      var b := Steps(cfg, a, Finish());
      Served(cfg, b, n);
      var rest := ServeAll(|s.queue| - 1);
      assert [AcceptCaller] + Finish() + rest == [AcceptCaller] + (Finish() + rest);
      assert ([AcceptCaller] + (Finish() + rest))[1..] == Finish() + rest;
      StepsConcat(cfg, a, Finish(), rest);
    }
  }

  /** No handshake among them. */
  predicate Quiet(more: seq<Event>) { forall i | 0 <= i < |more| :: !more[i].Handshake? }

  lemma {:induction false} ServeAllQuiet(count: nat)
    ensures Quiet(ServeAll(count))
  {
    if count > 0 {
      ServeAllQuiet(count - 1);
    }
  }

  /** The continuation that brings everybody let in to serve at once. */
  function Rush(s: State): seq<Event>
  {
    (if s.lock.Some? then Release(s.lock.value) else []) + Finish() + ServeAll(|s.queue|)
  }

  lemma RushQuiet(s: State)
    ensures Quiet(Rush(s))
  {
    ServeAllQuiet(|s.queue|);
  }

  lemma QueueKept(cfg: Config, s: State, w: nat)
    ensures Steps(cfg, s, Release(w)).queue == s.queue
  {
    ThreeSteps(cfg, s, Decrement(w), Restore(w), Unlock(w));
    HolderStep(cfg, s, Decrement(w), "");
    HolderStep(cfg, Next(cfg, s, Decrement(w)), Restore(w), "");
    HolderStep(cfg, Next(cfg, Next(cfg, s, Decrement(w)), Restore(w)), Unlock(w), "");
    hide Next;
  }

  /** It makes publishers of all of the load. */
  lemma Rushed(cfg: Config, s: State, n: Name)
    requires Inv(cfg, s)
    ensures Publishers(Steps(cfg, s, Rush(s)), n) >= Load(s, n)
  {
    var first := if s.lock.Some? then Release(s.lock.value) else [];
    var a := Steps(cfg, s, first);
    if s.lock.Some? {
      Released(cfg, s, s.lock.value, n);
      QueueKept(cfg, s, s.lock.value);
    }
    Finished(cfg, a, n);
    var b := Steps(cfg, a, Finish());
    Served(cfg, b, n);
    StepsConcat(cfg, s, first + Finish(), ServeAll(|s.queue|));
    StepsConcat(cfg, s, first, Finish());
    AllPublish(Steps(cfg, b, ServeAll(|s.queue|)), n);
  }

  lemma {:induction false} CopyingPublish(workers: seq<Worker>, n: Name)
    ensures Copying(workers, n) <= WorkersOf(workers, n)
  {
    if workers != [] {
      CopyingPublish(workers[..|workers| - 1], n);
    }
  }

  lemma AllPublish(t: State, n: Name)
    requires t.acceptor == Idle && t.queue == []
    ensures Publishers(t, n) >= Load(t, n)
  {
    CopyingPublish(t.workers, n);
  }

  // ---- the exact condition ------------------------------------------------------------

  /** At no point of the run, nor of any way it could have gone on from there without another
      handshake, has the name two publishers. */
  ghost predicate NeverTwo(cfg: Config, events: seq<Event>, n: Name)
  {
    forall k: nat, more | k <= |events| && Quiet(more) :: Publishers(Run(cfg, events[..k] + more), n) <= 1
  }

  lemma {:induction false} SpacedPrefix(cfg: Config, events: seq<Event>, k: nat, n: Name)
    requires Spaced(cfg, events, n) && k <= |events|
    ensures Spaced(cfg, events[..k], n)
  {
    if k < |events| {
      SpacedPrefix(cfg, events[..|events| - 1], k, n);
      assert events[..|events| - 1][..k] == events[..k];
    } else {
      assert events[..k] == events;
    }
  }

  lemma {:induction false} SpacedQuiet(cfg: Config, events: seq<Event>, more: seq<Event>, n: Name)
    requires Spaced(cfg, events, n) && Quiet(more)
    ensures Spaced(cfg, events + more, n)
    decreases |more|
  {
    if more == [] {
      assert events + more == events;
    } else {
      var last := |more| - 1;
      SpacedQuiet(cfg, events, more[..last], n);
      assert (events + more)[..|events + more| - 1] == events + more[..last];
      assert (events + more)[|events + more| - 1] == more[last];
    }
  }

  lemma {:induction false} UnspacedAt(cfg: Config, events: seq<Event>, n: Name) returns (k: nat)
    requires !Spaced(cfg, events, n)
    ensures k < |events| && Admits(cfg, Run(cfg, events[..k]), events[k], n) && Load(Run(cfg, events[..k]), n) > 0
  {
    var last := |events| - 1;
    if Spaced(cfg, events[..last], n) {
      k := last;
    } else {
      k := UnspacedAt(cfg, events[..last], n);
      assert events[..last][..k] == events[..k];
    }
  }

  /** One publisher per name, exactly: it is certain if and only if every caller of the name
      that was let in found no other one waiting, in hand or serving. */
  lemma NeverTwoIffSpaced(cfg: Config, events: seq<Event>, n: Name)
    ensures NeverTwo(cfg, events, n) <==> Spaced(cfg, events, n)
  {
    if Spaced(cfg, events, n) {
      forall k: nat, more | k <= |events| && Quiet(more) ensures Publishers(Run(cfg, events[..k] + more), n) <= 1 {
        SpacedPrefix(cfg, events, k, n);
        SpacedQuiet(cfg, events[..k], more, n);
        SpacedIsSingle(cfg, events[..k] + more, n);
      }
    } else {
      var k := UnspacedAt(cfg, events, n);
      RushMakesTwo(cfg, events, k, n);
    }
  }

  lemma RushMakesTwo(cfg: Config, events: seq<Event>, k: nat, n: Name)
    requires k < |events| && Admits(cfg, Run(cfg, events[..k]), events[k], n) && Load(Run(cfg, events[..k]), n) > 0
    ensures !NeverTwo(cfg, events, n)
  {
    var s := Run(cfg, events[..k + 1]);
    assert events[..k + 1] == events[..k] + [events[k]];
    RunSnoc(cfg, events[..k], events[k]);
    LoadStep(cfg, Run(cfg, events[..k]), events[k], n);
    RunInv(cfg, events[..k + 1]);
    Rushed(cfg, s, n);
    RushQuiet(s);
    StepsRun(cfg, events[..k + 1], Rush(s));
    assert Publishers(Run(cfg, events[..k + 1] + Rush(s)), n) >= 2;
  }
}
