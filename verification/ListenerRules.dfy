/** One SRT listener, many stream names: the accept thread counts each publisher and locks
    its name with a Conflict rule, and the last worker to end restores the operator's rule.
    Every thread's steps are separate events, so a list of events is an interleaving. */
module ListenerRules {
  import opened Bytes

  type Name = string

  datatype Reason = NotFound | Conflict | Other(code: nat)

  datatype Rule = Accept | AcceptWith(passphrase: string) | Reject(reason: Reason)

  const CONFLICT := Reject(Conflict)

  /** The operator's rules and the listener's default. */
  datatype Config = Config(originals: map<Name, Rule>, default: Rule)

  /** The accept thread between two calls of `accept`: it holds a connection, has counted
      it, or has set the Conflict rule. */
  datatype Acceptor = Idle | Got(id: Option<Name>) | Counted(name: Name) | Marked(name: Name)

  /** A worker: copying, holding the lock, at a count that reached zero with the rule still
      to restore, done but not yet unlocked, gone. */
  datatype Pc = Running | Locked | Zero | Done | Ended

  datatype Worker = Worker(id: Option<Name>, pc: Pc)

  /** `queue` holds the callers whose handshake succeeded and `accept` has not returned yet.
      `lock` is the worker that holds the mutex of `live`. `failed` records a worker that
      found no count of its own, or a zero one. */
  datatype State = State(rules: map<Name, Rule>, live: map<Name, nat>, queue: seq<Option<Name>>,
                         acceptor: Acceptor, workers: seq<Worker>, lock: Option<nat>, failed: bool)

  datatype Event =
    | Handshake(id: Option<Name>)
    | AcceptCaller
    | Count
    | SetConflict
    | Spawn
    | Lock(w: nat)
    | Decrement(w: nat)
    | Restore(w: nat)
    | Unlock(w: nat)

  function Init(cfg: Config): State {
    State(cfg.originals, map[], [], Idle, [], None, false)
  }

  /** The listener's answer to a handshake (`decide`): no name, or an empty one, gets the default. */
  function Decide(cfg: Config, rules: map<Name, Rule>, id: Option<Name>): Rule {
    if id.Some? && id.value != "" && id.value in rules then rules[id.value] else cfg.default
  }

  /** `stream_id()`: an empty name is none. */
  function StreamId(id: Option<Name>): Option<Name> { if id == Some("") then None else id }

  function LiveCount(live: map<Name, nat>, n: Name): nat { if n in live then live[n] else 0 }

  function SetRule<V>(rules: map<Name, V>, n: Name, rule: Option<V>): map<Name, V> {
    if rule.Some? then rules[n := rule.value] else rules - {n}
  }

  function Entry<V>(rules: map<Name, V>, n: Name): Option<V> { if n in rules then Some(rules[n]) else None }

  function SetPc(s: State, w: nat, pc: Pc): State
    requires w < |s.workers|
  {
    s.(workers := s.workers[w := s.workers[w].(pc := pc)])
  }

  predicate AtPc(s: State, w: nat, pc: Pc) { w < |s.workers| && s.workers[w].pc == pc }

  /** One event; an event whose thread is not there leaves the state alone. */
  function Next(cfg: Config, s: State, e: Event): (s': State)
  {
    match e
    case Handshake(id) =>
      if Decide(cfg, s.rules, id).Reject? then s else s.(queue := s.queue + [id])
    case AcceptCaller =>
      if s.acceptor == Idle && s.queue != [] then s.(acceptor := Got(StreamId(s.queue[0])), queue := s.queue[1..]) else s
    case Count =>
      if s.acceptor.Got? && s.acceptor.id.Some? && s.lock == None then
        var n := s.acceptor.id.value;
        s.(live := s.live[n := LiveCount(s.live, n) + 1], acceptor := Counted(n))
      else s
    case SetConflict =>
      if s.acceptor.Counted? then
        s.(rules := s.rules[s.acceptor.name := CONFLICT], acceptor := Marked(s.acceptor.name))
      else s
    case Spawn =>
      if s.acceptor.Marked? then
        s.(workers := s.workers + [Worker(Some(s.acceptor.name), Running)], acceptor := Idle)
      else if s.acceptor == Got(None) then
        s.(workers := s.workers + [Worker(None, Running)], acceptor := Idle)
      else s
    case Lock(w) =>
      if AtPc(s, w, Running) then
        if s.workers[w].id == None then SetPc(s, w, Ended)
        else if s.lock == None then SetPc(s, w, Locked).(lock := Some(w))
        else s
      else s
    case Decrement(w) =>
      if AtPc(s, w, Locked) && s.workers[w].id.Some? then
        var n := s.workers[w].id.value;
        if LiveCount(s.live, n) == 0 then s.(failed := true)
        else if s.live[n] == 1 then SetPc(s, w, Zero).(live := s.live - {n})
        else SetPc(s, w, Done).(live := s.live[n := s.live[n] - 1])
      else s
    case Restore(w) =>
      if AtPc(s, w, Zero) && s.workers[w].id.Some? then
        var n := s.workers[w].id.value;
        SetPc(s, w, Done).(rules := SetRule(s.rules, n, Entry(cfg.originals, n)))
      else s
    case Unlock(w) =>
      if AtPc(s, w, Done) then SetPc(s, w, Ended).(lock := None) else s
  }

  function Run(cfg: Config, events: seq<Event>): (s: State)
  {
    if events == [] then Init(cfg)
    else Next(cfg, Run(cfg, events[..|events| - 1]), events[|events| - 1])
  }

  // ---- the invariant -----------------------------------------------------------------

  /** A worker that its name still counts. */
  predicate Counts(w: Worker, n: Name) { w.id == Some(n) && (w.pc == Running || w.pc == Locked) }

  function WorkersOf(workers: seq<Worker>, n: Name): nat
  {
    if workers == [] then 0
    else WorkersOf(workers[..|workers| - 1], n) + if Counts(workers[|workers| - 1], n) then 1 else 0
  }

  /** The publishers of `n` counted and not yet ended, the one being spawned included. */
  function Publishers(s: State, n: Name): nat {
    WorkersOf(s.workers, n) + if s.acceptor == Counted(n) || s.acceptor == Marked(n) then 1 else 0
  }

  predicate Holding(pc: Pc) { pc == Locked || pc == Zero || pc == Done }

  /** The mutex: a worker is inside its epilogue exactly while it holds the lock. */
  ghost predicate LockOk(s: State) {
    && (forall w | 0 <= w < |s.workers| :: Holding(s.workers[w].pc) <==> s.lock == Some(w))
    && (s.lock.Some? ==> s.lock.value < |s.workers|)
    && (forall w | 0 <= w < |s.workers| && Holding(s.workers[w].pc) :: s.workers[w].id.Some?)
  }

  /** The last worker of `n` has taken the count to zero and not yet restored the rule. */
  predicate Restoring(s: State, n: Name) {
    s.lock.Some? && s.lock.value < |s.workers| && s.workers[s.lock.value] == Worker(Some(n), Zero)
  }

  /** What holds of one name. */
  ghost predicate NameOk(cfg: Config, s: State, n: Name) {
    && (n in s.live <==> Publishers(s, n) > 0)
    && (n in s.live ==> s.live[n] == Publishers(s, n))
    && (Publishers(s, n) == 0 && !Restoring(s, n) ==> Entry(s.rules, n) == Entry(cfg.originals, n))
    && (Publishers(s, n) > 0 && s.acceptor != Counted(n) ==> Entry(s.rules, n) == Some(CONFLICT))
    && (Restoring(s, n) ==> Publishers(s, n) == 0)
  }

  ghost predicate Inv(cfg: Config, s: State) {
    LockOk(s) && !s.failed && forall n :: NameOk(cfg, s, n)
  }

  lemma {:induction false} WorkersOfUpdate(workers: seq<Worker>, i: nat, w: Worker, n: Name)
    requires i < |workers|
    ensures WorkersOf(workers[i := w], n) + (if Counts(workers[i], n) then 1 else 0)
         == WorkersOf(workers, n) + (if Counts(w, n) then 1 else 0)
  {
    var last := |workers| - 1;
    if i == last {
      assert workers[i := w][..last] == workers[..last];
    } else {
      assert workers[i := w][..last] == workers[..last][i := w];
      WorkersOfUpdate(workers[..last], i, w, n);
    }
  }

  lemma WorkersOfSnoc(workers: seq<Worker>, w: Worker, n: Name)
    ensures WorkersOf(workers + [w], n) == WorkersOf(workers, n) + if Counts(w, n) then 1 else 0
  {
    assert (workers + [w])[..|workers|] == workers;
  }

  lemma {:induction false} WorkersOfPositive(workers: seq<Worker>, i: nat, n: Name)
    requires i < |workers| && Counts(workers[i], n)
    ensures WorkersOf(workers, n) > 0
  {
    if i < |workers| - 1 { WorkersOfPositive(workers[..|workers| - 1], i, n); }
  }

  lemma InitInv(cfg: Config)
    ensures Inv(cfg, Init(cfg))
  {}

  /** One event keeps the mutex discipline. */
  lemma LockStep(cfg: Config, s: State, e: Event)
    requires LockOk(s)
    ensures LockOk(Next(cfg, s, e))
  {
    match e
    case Spawn => LockSpawn(cfg, s);
    case Lock(w) => if AtPc(s, w, Running) { LockLock(cfg, s, w); }
    case Decrement(w) => if AtPc(s, w, Locked) { LockDecrement(cfg, s, w); }
    case Restore(w) => if AtPc(s, w, Zero) { LockSetPc(s, w, Done, s.lock); }
    case Unlock(w) => if AtPc(s, w, Done) { LockSetPc(s, w, Ended, None); }
    case _ =>
  }

  lemma LockSpawn(cfg: Config, s: State)
    requires LockOk(s)
    ensures LockOk(Next(cfg, s, Spawn))
  {
    if s.acceptor.Marked? {
      LockAdds(s, Some(s.acceptor.name));
    } else {
      LockAdds(s, None);
    }
  }

  lemma LockAdds(s: State, id: Option<Name>)
    requires LockOk(s)
    ensures LockOk(s.(workers := s.workers + [Worker(id, Running)], acceptor := Idle))
  {
    var t := s.(workers := s.workers + [Worker(id, Running)], acceptor := Idle);
    forall v | 0 <= v < |t.workers| ensures Holding(t.workers[v].pc) <==> t.lock == Some(v) {
      assert v < |s.workers| ==> t.workers[v] == s.workers[v];
    }
  }

  lemma LockLock(cfg: Config, s: State, w: nat)
    requires LockOk(s) && AtPc(s, w, Running)
    ensures LockOk(Next(cfg, s, Lock(w)))
  {
    if s.workers[w].id == None {
      LockSetPc(s, w, Ended, s.lock);
    } else if s.lock == None {
      LockSetPc(s, w, Locked, Some(w));
    }
  }

  lemma LockDecrement(cfg: Config, s: State, w: nat)
    requires LockOk(s) && AtPc(s, w, Locked)
    ensures LockOk(Next(cfg, s, Decrement(w)))
  {
    LockSetPc(s, w, Zero, s.lock);
    LockSetPc(s, w, Done, s.lock);
  }

  /** A worker moves, taking, keeping or leaving the lock as its new place demands. */
  lemma LockSetPc(s: State, w: nat, pc: Pc, lock: Option<nat>)
    requires LockOk(s) && w < |s.workers|
    requires Holding(pc) ==> (s.lock == None || s.lock == Some(w)) && s.workers[w].id.Some?
    requires lock == if Holding(pc) then Some(w) else if Holding(s.workers[w].pc) then None else s.lock
    ensures LockOk(SetPc(s, w, pc).(lock := lock))
  {
    var t := SetPc(s, w, pc).(lock := lock);
    forall v | 0 <= v < |t.workers| ensures Holding(t.workers[v].pc) <==> t.lock == Some(v) {
      assert v != w ==> t.workers[v] == s.workers[v];
    }
  }

  /** One event keeps the truth about one name. */
  lemma NameStep(cfg: Config, s: State, e: Event, n: Name)
    requires Inv(cfg, s)
    ensures NameOk(cfg, Next(cfg, s, e), n)
  {
    assert NameOk(cfg, s, n);
    match e
    case Handshake(id) =>
    case AcceptCaller =>
    case Count =>
    case SetConflict =>
    case Spawn => SpawnStep(cfg, s, n);
    case Lock(w) => if AtPc(s, w, Running) { LockKeeps(cfg, s, w, n); }
    case Decrement(w) => if AtPc(s, w, Locked) { DecrementKeeps(cfg, s, w, n); }
    case Restore(w) => if AtPc(s, w, Zero) { RestoreKeeps(cfg, s, w, n); }
    case Unlock(w) => if AtPc(s, w, Done) { UnlockKeeps(cfg, s, w, n); }
  }

  lemma SpawnStep(cfg: Config, s: State, n: Name)
    requires Inv(cfg, s)
    ensures NameOk(cfg, Next(cfg, s, Spawn), n)
  {
    assert NameOk(cfg, s, n);
    if s.acceptor.Marked? || s.acceptor == Got(None) {
      SpawnedPublishers(cfg, s, n);
    }
  }

  /** A spawn moves a marked publisher to its worker and starts no restore. */
  lemma SpawnedPublishers(cfg: Config, s: State, n: Name)
    requires LockOk(s) && (s.acceptor.Marked? || s.acceptor == Got(None))
    ensures var t := Next(cfg, s, Spawn);
            && Publishers(t, n) == Publishers(s, n) && (Restoring(t, n) <==> Restoring(s, n))
            && t.rules == s.rules && t.live == s.live && t.acceptor == Idle
  {
    WorkersOfSnoc(s.workers, Worker(if s.acceptor.Marked? then Some(s.acceptor.name) else None, Running), n);
  }

  lemma LockKeeps(cfg: Config, s: State, w: nat, n: Name)
    requires Inv(cfg, s) && AtPc(s, w, Running)
    ensures NameOk(cfg, Next(cfg, s, Lock(w)), n)
  {
    assert NameOk(cfg, s, n);
    WorkersOfUpdate(s.workers, w, s.workers[w].(pc := Ended), n);
    WorkersOfUpdate(s.workers, w, s.workers[w].(pc := Locked), n);
  }

  lemma DecrementKeeps(cfg: Config, s: State, w: nat, n: Name)
    requires Inv(cfg, s) && AtPc(s, w, Locked)
    ensures NameOk(cfg, Next(cfg, s, Decrement(w)), n)
  {
    assert NameOk(cfg, s, n);
    var m := s.workers[w].id.value;
    assert NameOk(cfg, s, m);
    WorkersOfPositive(s.workers, w, m);
    WorkersOfUpdate(s.workers, w, s.workers[w].(pc := Zero), n);
    WorkersOfUpdate(s.workers, w, s.workers[w].(pc := Done), n);
  }

  lemma RestoreKeeps(cfg: Config, s: State, w: nat, n: Name)
    requires Inv(cfg, s) && AtPc(s, w, Zero)
    ensures NameOk(cfg, Next(cfg, s, Restore(w)), n)
  {
    assert NameOk(cfg, s, n);
    WorkersOfUpdate(s.workers, w, s.workers[w].(pc := Done), n);
  }

  lemma UnlockKeeps(cfg: Config, s: State, w: nat, n: Name)
    requires Inv(cfg, s) && AtPc(s, w, Done)
    ensures NameOk(cfg, Next(cfg, s, Unlock(w)), n)
  {
    assert NameOk(cfg, s, n);
    WorkersOfUpdate(s.workers, w, s.workers[w].(pc := Ended), n);
  }

  /** No worker ever finds its count missing or zero. */
  lemma NeverFails(cfg: Config, s: State, e: Event)
    requires Inv(cfg, s)
    ensures !Next(cfg, s, e).failed
  {
    if e.Decrement? && AtPc(s, e.w, Locked) {
      var m := s.workers[e.w].id.value;
      assert NameOk(cfg, s, m);
      WorkersOfPositive(s.workers, e.w, m);
    }
  }

  /** Every interleaving of handshakes, accepts and worker exits: the mutex discipline holds,
      no decrement misses its count, and each name's count and rule are as they must be. */
  lemma {:induction false} RunInv(cfg: Config, events: seq<Event>)
    ensures Inv(cfg, Run(cfg, events))
  {
    if events == [] {
      InitInv(cfg);
    } else {
      var before, e := events[..|events| - 1], events[|events| - 1];
      RunInv(cfg, before);
      var s := Run(cfg, before);
      LockStep(cfg, s, e);
      NeverFails(cfg, s, e);
      forall n ensures NameOk(cfg, Next(cfg, s, e), n) { NameStep(cfg, s, e, n); }
    }
  }

  // ---- what it means -----------------------------------------------------------------

  /** The count of a name is the number of its publishers, counted and not yet ended. */
  lemma CountIsPublishers(cfg: Config, events: seq<Event>, n: Name)
    ensures LiveCount(Run(cfg, events).live, n) == Publishers(Run(cfg, events), n)
  {
    RunInv(cfg, events);
    assert NameOk(cfg, Run(cfg, events), n);
  }

  /** With the mutex free, a name nobody publishes has exactly the operator's rule, or none. */
  lemma FreeNameHasOriginalRule(cfg: Config, events: seq<Event>, n: Name)
    requires Run(cfg, events).lock == None && n !in Run(cfg, events).live
    ensures Entry(Run(cfg, events).rules, n) == Entry(cfg.originals, n)
  {
    RunInv(cfg, events);
    assert NameOk(cfg, Run(cfg, events), n);
  }

  /** A live name is locked: outside the accept thread's window between counting and
      setting, a further caller of that name is refused with Conflict and never queued. */
  lemma LiveNameIsLocked(cfg: Config, events: seq<Event>, n: Name)
    requires n in Run(cfg, events).live && n != "" && Run(cfg, events).acceptor != Counted(n)
    ensures Decide(cfg, Run(cfg, events).rules, Some(n)) == CONFLICT
    ensures Run(cfg, events + [Handshake(Some(n))]) == Run(cfg, events)
  {
    RunInv(cfg, events);
    assert NameOk(cfg, Run(cfg, events), n);
    assert (events + [Handshake(Some(n))])[..|events|] == events;
  }

  /** When every worker has ended and the accept thread is idle, nothing is left of them. */
  lemma QuietListenerIsAsConfigured(cfg: Config, events: seq<Event>)
    requires Run(cfg, events).acceptor == Idle
    requires forall w | w in Run(cfg, events).workers :: w.pc == Ended
    ensures Run(cfg, events).rules == cfg.originals && Run(cfg, events).live == map[]
  {
    var s := Run(cfg, events);
    RunInv(cfg, events);
    forall n ensures n !in s.live && Entry(s.rules, n) == Entry(cfg.originals, n) {
      assert NameOk(cfg, s, n);
      NoWorkers(s.workers, n);
    }
    assert s.lock.Some? ==> s.workers[s.lock.value] in s.workers;
    forall n ensures n in s.rules <==> n in cfg.originals { assert Entry(s.rules, n) == Entry(cfg.originals, n); }
    forall n | n in s.rules ensures s.rules[n] == cfg.originals[n] { assert Entry(s.rules, n) == Entry(cfg.originals, n); }
  }

  lemma {:induction false} NoWorkers(workers: seq<Worker>, n: Name)
    requires forall w | w in workers :: w.pc == Ended
    ensures WorkersOf(workers, n) == 0
  {
    if workers != [] { NoWorkers(workers[..|workers| - 1], n); }
  }

  lemma RunSnoc(cfg: Config, events: seq<Event>, e: Event)
    ensures Run(cfg, events + [e]) == Next(cfg, Run(cfg, events), e)
  {
    assert (events + [e])[..|events|] == events;
  }

  /** Two callers of one name, both past their handshakes. */
  function TwoCallers(cfg: Config): (s: State)
  {
    Init(cfg).(queue := [Some("amber"), Some("amber")])
  }

  lemma BothShakeHands(cfg: Config)
    requires cfg == Config(map[], Accept)
    ensures Run(cfg, [Handshake(Some("amber"))] + [Handshake(Some("amber"))]) == TwoCallers(cfg)
  {
    var caller := Handshake(Some("amber"));
    RunSnoc(cfg, [], caller);
    assert [] + [caller] == [caller];
    RunSnoc(cfg, [caller], caller);
  }

  function Four(cfg: Config, s: State): (r: State)
  {
    Next(cfg, Next(cfg, Next(cfg, Next(cfg, s, AcceptCaller), Count), SetConflict), Spawn)
  }

  lemma FirstServed(cfg: Config)
    requires cfg == Config(map[], Accept)
    ensures var s := Four(cfg, TwoCallers(cfg));
            && s.acceptor == Idle && s.queue == [Some("amber")] && s.lock == None
            && s.workers == [Worker(Some("amber"), Running)]
  {
  }

  lemma SecondCounted(cfg: Config, s: State)
    requires s.acceptor == Idle && s.queue == [Some("amber")] && s.lock == None
    requires s.workers == [Worker(Some("amber"), Running)]
    ensures Publishers(Next(cfg, Next(cfg, s, AcceptCaller), Count), "amber") == 2
  {
    var s' := Next(cfg, Next(cfg, s, AcceptCaller), Count);
    assert s'.acceptor == Counted("amber") && s'.workers == s.workers;
    WorkersOfSnoc([], Worker(Some("amber"), Running), "amber");
    assert [] + [Worker(Some("amber"), Running)] == s.workers;
  }

  lemma RunFour(cfg: Config, events: seq<Event>)
    ensures Run(cfg, events + [AcceptCaller] + [Count] + [SetConflict] + [Spawn]) == Four(cfg, Run(cfg, events))
  {
    var a := events + [AcceptCaller];
    RunSnoc(cfg, events, AcceptCaller);
    RunSnoc(cfg, a, Count);
    RunSnoc(cfg, a + [Count], SetConflict);
    RunSnoc(cfg, a + [Count] + [SetConflict], Spawn);
  }

  lemma RunTwo(cfg: Config, events: seq<Event>)
    ensures Run(cfg, events + [AcceptCaller] + [Count]) == Next(cfg, Next(cfg, Run(cfg, events), AcceptCaller), Count)
  {
    RunSnoc(cfg, events, AcceptCaller);
    RunSnoc(cfg, events + [AcceptCaller], Count);
  }

  /** Two handshakes, then the first caller served and the second counted. */
  function SlippingIn(): (events: seq<Event>)
  {
    [Handshake(Some("amber"))] + [Handshake(Some("amber"))]
    + [AcceptCaller] + [Count] + [SetConflict] + [Spawn] + [AcceptCaller] + [Count]
  }

  /** The documented race is real: a second caller whose handshake completes before the
      Conflict rule is set gets in, and two publishers of one name are live at once. */
  lemma SecondCallerCanSlipIn(cfg: Config)
    requires cfg == Config(map[], Accept)
    ensures Publishers(Run(cfg, SlippingIn()), "amber") == 2
  {
    var two := [Handshake(Some("amber"))] + [Handshake(Some("amber"))];
    var one := two + [AcceptCaller] + [Count] + [SetConflict] + [Spawn];
    BothShakeHands(cfg);
    RunFour(cfg, two);
    RunTwo(cfg, one);
    FirstServed(cfg);
    SecondCounted(cfg, Run(cfg, one));
  }
}
