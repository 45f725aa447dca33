/** The rekey budget patched into librist (`_librist_crypto_rekey_admit`): a token bucket
    kept as one timestamp, shared by the decrypt and the nonce preannounce of one key.
    The refill interval comes from librist itself and is a parameter here. */
module RekeyBudget {
  import opened Bytes

  const REKEY_BURST := 16

  /** An interval the budget's 64-bit arithmetic holds. */
  predicate Usable(interval: nat) {
    0 < interval && REKEY_BURST * interval < U64_MOD
  }

  /** A time far enough from the end of the 64-bit clock; zero is the failed clock read. */
  predicate InRange(now: u64, interval: nat) {
    now != 0 && now + REKEY_BURST * interval < U64_MOD
  }

  predicate Admits(tat: u64, now: u64, interval: nat) {
    now == 0 || tat <= now + (REKEY_BURST - 1) * interval
  }

  /** `rekey_tat` after a request. */
  function After(tat: u64, now: u64, interval: nat): (r: u64)
  {
    if now == 0 || !Admits(tat, now, interval) then tat
    else ((if tat < now then now else tat) + interval) % U64_MOD
  }

  datatype Caller = Decrypt | Preannounce

  class RistKey {
    var rekeyTat: u64
    var greNonce: u32
    const interval: nat

    constructor (interval: nat)
      requires Usable(interval)
      ensures rekeyTat == 0 && this.interval == interval
    {
      this.interval := interval;
      rekeyTat, greNonce := 0, 0;
    }

    /** `_librist_crypto_rekey_admit`; the subtraction and the product stay below 2^64. */
    method RekeyAdmit(now: u64) returns (ok: bool)
      requires Usable(interval)
      modifies this`rekeyTat
      ensures ok == Admits(old(rekeyTat), now, interval)
      ensures rekeyTat == After(old(rekeyTat), now, interval)
    {
      if now == 0 { return true; }
      if rekeyTat < now { rekeyTat := now; }
      if rekeyTat - now > (REKEY_BURST - 1) * interval { return false; }
      rekeyTat := (rekeyTat + interval) % U64_MOD;
      return true;
    }

    /** The rekey of either caller: the budget is spent before the nonce is adopted, so a
        refused one changes nothing. */
    method Rekey(caller: Caller, now: u64, nonce: u32) returns (status: int)
      requires Usable(interval)
      modifies this
      ensures status == if Admits(old(rekeyTat), now, interval) then 0 else -1
      ensures rekeyTat == After(old(rekeyTat), now, interval)
      ensures greNonce == if status == 0 then nonce else old(greNonce)
      ensures status != 0 ==> rekeyTat == old(rekeyTat)
    {
      var ok := RekeyAdmit(now);
      if !ok { return -1; }
      greNonce := nonce;
      return 0;
    }

    /** The passphrase set: a full budget again. */
    method SetPassphrase(nonce: u32)
      modifies this
      ensures rekeyTat == 0 && greNonce == nonce
    {
      rekeyTat := 0;
      greNonce := nonce;
    }
  }

  // ---- runs --------------------------------------------------------------------------

  /** A derivation request of a received packet. */
  datatype Request = Request(caller: Caller, now: u64)

  /** The times of the requests admitted in a run that starts at `tat`. */
  function Admitted(tat: u64, reqs: seq<Request>, interval: nat): (r: seq<u64>)
    decreases |reqs|
  {
    if reqs == [] then []
    else
      var rest := Admitted(After(tat, reqs[0].now, interval), reqs[1..], interval);
      if Admits(tat, reqs[0].now, interval) then [reqs[0].now] + rest else rest
  }

  ghost predicate AllInRange(reqs: seq<Request>, interval: nat) {
    forall i | 0 <= i < |reqs| :: InRange(reqs[i].now, interval)
  }

  /** Times that a bucket of 16, refilled once an interval, could have served: from any one
      to any later one, the count is at most the burst and the refill between them. */
  ghost predicate Conforms(times: seq<u64>, interval: nat) {
    forall i, j | 0 <= i <= j < |times| :: Fits(times, interval, i, j)
  }

  predicate Fits(times: seq<u64>, interval: nat, i: nat, j: nat)
    requires i <= j < |times|
  {
    (j - i) * interval <= times[j] - times[i] + (REKEY_BURST - 1) * interval
  }

  /** An admission moves the due time on by one interval exactly when the clock has room. */
  lemma AfterMovesOn(tat: u64, now: u64, interval: nat)
    requires Usable(interval) && now > 0 && Admits(tat, now, interval)
    ensures var due := if tat < now then now else tat;
            After(tat, now, interval) == due + interval <==> due + interval < U64_MOD
  {
  }

  lemma AfterGrows(tat: u64, now: u64, interval: nat)
    requires Usable(interval) && InRange(now, interval)
    ensures After(tat, now, interval) >= tat
    ensures Admits(tat, now, interval) ==> After(tat, now, interval) >= tat + interval
    ensures Admits(tat, now, interval) ==> now + interval <= After(tat, now, interval) <= now + REKEY_BURST * interval
    ensures !Admits(tat, now, interval) ==> After(tat, now, interval) == tat
  {}

  /** Each admission pushes the due time one interval further. */
  lemma {:induction false} DueTimeLags(tat: u64, reqs: seq<Request>, interval: nat, j: nat)
    requires Usable(interval) && AllInRange(reqs, interval)
    requires j < |Admitted(tat, reqs, interval)|
    ensures tat + j * interval <= Admitted(tat, reqs, interval)[j] + (REKEY_BURST - 1) * interval
    decreases |reqs|
  {
    var now, rest := reqs[0].now, reqs[1..];
    var next := After(tat, now, interval);
    AfterGrows(tat, now, interval);
    if !Admits(tat, now, interval) {
      DueTimeLags(next, rest, interval, j);
    } else if j > 0 {
      DueTimeLags(next, rest, interval, j - 1);
      assert j * interval == (j - 1) * interval + interval;
    }
  }

  lemma {:induction false} AdmittedConform(tat: u64, reqs: seq<Request>, interval: nat, i: nat, j: nat)
    requires Usable(interval) && AllInRange(reqs, interval)
    requires i <= j < |Admitted(tat, reqs, interval)|
    ensures Fits(Admitted(tat, reqs, interval), interval, i, j)
    decreases |reqs|
  {
    var now, rest := reqs[0].now, reqs[1..];
    var next := After(tat, now, interval);
    var times, later := Admitted(tat, reqs, interval), Admitted(next, rest, interval);
    AfterGrows(tat, now, interval);
    if !Admits(tat, now, interval) {
      AdmittedConform(next, rest, interval, i, j);
    } else if i > 0 {
      AdmittedConform(next, rest, interval, i - 1, j - 1);
      assert times[i] == later[i - 1] && times[j] == later[j - 1];
    } else if j > 0 {
      DueTimeLags(next, rest, interval, j - 1);
      assert times[0] == now && times[j] == later[j - 1];
      assert j * interval == (j - 1) * interval + interval;
    }
  }

  /** The rate bound: over every run of requests from either caller, in any order and from any
      earlier history, at non-zero times that leave 16 intervals to the end of the 64-bit
      clock, the requests admitted from time `t1` to time `tn` number at most 16 and one per
      whole interval between. `BoundHoldsIff` shows that nothing less would do. */
  lemma RateBound(tat: u64, reqs: seq<Request>, interval: nat, i: nat, j: nat)
    requires Usable(interval) && AllInRange(reqs, interval)
    requires i <= j < |Admitted(tat, reqs, interval)|
    requires Admitted(tat, reqs, interval)[i] <= Admitted(tat, reqs, interval)[j]
    ensures var times := Admitted(tat, reqs, interval);
            j - i + 1 <= REKEY_BURST + (times[j] - times[i]) / interval
  {
    var times := Admitted(tat, reqs, interval);
    AdmittedConform(tat, reqs, interval, i, j);
    DivideBound(j - i, times[j] - times[i], interval);
  }

  lemma DivideBound(n: nat, span: nat, interval: nat)
    requires interval > 0 && n * interval <= span + (REKEY_BURST - 1) * interval
    ensures n + 1 <= REKEY_BURST + span / interval
  {
    var m := n - (REKEY_BURST - 1);
    assert m * interval <= span;
    Divide(m, span, interval);
  }

  lemma Divide(n: int, span: nat, interval: nat)
    requires interval > 0 && n * interval <= span
    ensures n <= span / interval
  {
    var q := span / interval;
    assert span < (q + 1) * interval;
    if n > q {
      Scaled(q + 1, n, interval);
      assert false;
    }
  }

  function Times(reqs: seq<Request>): (r: seq<u64>)
    ensures |r| == |reqs| && forall i | 0 <= i < |reqs| :: r[i] == reqs[i].now
  {
    seq(|reqs|, i requires 0 <= i < |reqs| => reqs[i].now)
  }

  /** The due time after the first `n` requests, all admitted. */
  function DueAfter(tat: u64, reqs: seq<Request>, n: nat, interval: nat): (r: u64)
    requires n <= |reqs|
  {
    if n == 0 then tat else After(DueAfter(tat, reqs, n - 1, interval), reqs[n - 1].now, interval)
  }

  /** A due time is some earlier request's time plus one interval for every admission since. */
  ghost predicate DueFrom(tat: u64, reqs: seq<Request>, n: nat, interval: nat, i: nat)
    requires n <= |reqs|
  {
    i < n && DueAfter(tat, reqs, n, interval) == reqs[i].now + (n - i) * interval
  }

  lemma DueBase(tat: u64, reqs: seq<Request>, interval: nat)
    requires Usable(interval) && reqs != [] && InRange(reqs[0].now, interval) && tat <= reqs[0].now
    ensures DueFrom(tat, reqs, 1, interval, 0) && Admits(DueAfter(tat, reqs, 0, interval), reqs[0].now, interval)
  {
    AfterGrows(tat, reqs[0].now, interval);
    assert DueAfter(tat, reqs, 0, interval) == tat;
    assert DueAfter(tat, reqs, 1, interval) == After(tat, reqs[0].now, interval);
  }

  /** What the conformance of request `n` says about its due time. */
  lemma DueAdmits(tat: u64, reqs: seq<Request>, n: nat, interval: nat, p: nat)
    requires n < |reqs| && DueFrom(tat, reqs, n, interval, p) && Fits(Times(reqs), interval, p, n)
    ensures Admits(DueAfter(tat, reqs, n, interval), reqs[n].now, interval)
  {
    assert Times(reqs)[n] == reqs[n].now && Times(reqs)[p] == reqs[p].now;
  }

  lemma OneMore(k: nat, interval: nat)
    ensures (k + 1) * interval == k * interval + interval
  {
  }

  lemma DueStep(tat: u64, reqs: seq<Request>, n: nat, interval: nat, p: nat) returns (i: nat)
    requires Usable(interval) && n < |reqs| && InRange(reqs[n].now, interval)
    requires DueFrom(tat, reqs, n, interval, p) && Fits(Times(reqs), interval, p, n)
    ensures DueFrom(tat, reqs, n + 1, interval, i)
    ensures Admits(DueAfter(tat, reqs, n, interval), reqs[n].now, interval)
  {
    var due, now := DueAfter(tat, reqs, n, interval), reqs[n].now;
    DueAdmits(tat, reqs, n, interval, p);
    AfterAdmitted(due, now, interval);
    OneMore(n - p, interval);
    i := if due < now then n else p;
  }

  lemma AfterAdmitted(due: u64, now: u64, interval: nat)
    requires Usable(interval) && InRange(now, interval) && Admits(due, now, interval)
    ensures After(due, now, interval) == (if due < now then now else due) + interval
  {
  }

  lemma {:induction false} DueTimeWitness(tat: u64, reqs: seq<Request>, n: nat, interval: nat) returns (i: nat)
    requires Usable(interval) && AllInRange(reqs, interval) && Conforms(Times(reqs), interval)
    requires 0 < n <= |reqs| && tat <= reqs[0].now
    ensures DueFrom(tat, reqs, n, interval, i)
  {
    if n == 1 {
      DueBase(tat, reqs, interval);
      i := 0;
    } else {
      var p := DueTimeWitness(tat, reqs, n - 1, interval);
      assert Fits(Times(reqs), interval, p, n - 1);
      i := DueStep(tat, reqs, n - 1, interval, p);
    }
  }

  lemma ConformingAdmitted(tat: u64, reqs: seq<Request>, n: nat, interval: nat)
    requires Usable(interval) && AllInRange(reqs, interval) && Conforms(Times(reqs), interval)
    requires n < |reqs| && tat <= reqs[0].now
    ensures Admits(DueAfter(tat, reqs, n, interval), reqs[n].now, interval)
  {
    if n == 0 {
      DueBase(tat, reqs, interval);
    } else {
      var p := DueTimeWitness(tat, reqs, n, interval);
      assert Fits(Times(reqs), interval, p, n);
      var _ := DueStep(tat, reqs, n, interval, p);
    }
  }

  lemma AdmittedCons(tat: u64, req: Request, rest: seq<Request>, interval: nat)
    ensures Admitted(tat, [req] + rest, interval)
         == (if Admits(tat, req.now, interval) then [req.now] else []) + Admitted(After(tat, req.now, interval), rest, interval)
  {
    assert ([req] + rest)[1..] == rest;
  }

  lemma NoneAdmitted(tat: u64, interval: nat)
    ensures Admitted(tat, [], interval) == []
  {
  }

  lemma {:induction false} AdmittedAll(tat: u64, reqs: seq<Request>, interval: nat, n: nat)
    requires n <= |reqs|
    requires forall m | n <= m < |reqs| :: Admits(DueAfter(tat, reqs, m, interval), reqs[m].now, interval)
    ensures Admitted(DueAfter(tat, reqs, n, interval), reqs[n..], interval) == Times(reqs)[n..]
    decreases |reqs| - n
  {
    hide *;
    if n == |reqs| {
      assert reqs[n..] == [];
      NoneAdmitted(DueAfter(tat, reqs, n, interval), interval);
      assert Times(reqs)[n..] == [];
    } else {
      AdmittedAll(tat, reqs, interval, n + 1);
      AdmittedFrom(tat, reqs, interval, n);
    }
  }

  lemma AdmittedFrom(tat: u64, reqs: seq<Request>, interval: nat, n: nat)
    requires n < |reqs| && Admits(DueAfter(tat, reqs, n, interval), reqs[n].now, interval)
    requires Admitted(DueAfter(tat, reqs, n + 1, interval), reqs[n + 1..], interval) == Times(reqs)[n + 1..]
    ensures Admitted(DueAfter(tat, reqs, n, interval), reqs[n..], interval) == Times(reqs)[n..]
  {
    hide Admits, Admitted, After, Times;
    assert reqs[n..] == [reqs[n]] + reqs[n + 1..];
    AdmittedCons(DueAfter(tat, reqs, n, interval), reqs[n], reqs[n + 1..], interval);
    assert Times(reqs)[n..] == [reqs[n].now] + Times(reqs)[n + 1..];
  }

  /** The budget refuses nobody it could serve: with a full budget every request of a run is
      admitted if and only if its times conform. */
  lemma AdmitsAllIffConforms(tat: u64, reqs: seq<Request>, interval: nat)
    requires Usable(interval) && AllInRange(reqs, interval)
    requires reqs != [] ==> tat <= reqs[0].now
    ensures Admitted(tat, reqs, interval) == Times(reqs) <==> Conforms(Times(reqs), interval)
  {
    if Conforms(Times(reqs), interval) {
      forall m | 0 <= m < |reqs| ensures Admits(DueAfter(tat, reqs, m, interval), reqs[m].now, interval) {
        ConformingAdmitted(tat, reqs, m, interval);
      }
      AdmittedAll(tat, reqs, interval, 0);
      assert reqs[0..] == reqs && Times(reqs)[0..] == Times(reqs);
    }
    if Admitted(tat, reqs, interval) == Times(reqs) {
      forall i, j | 0 <= i <= j < |reqs| ensures Fits(Times(reqs), interval, i, j) {
        AdmittedConform(tat, reqs, interval, i, j);
      }
    }
  }

  /** The time of request `i` when 16 come at once and then one per interval. */
  function LadderTime(start: int, i: nat, interval: nat): int {
    if i < REKEY_BURST then start else start + (i - (REKEY_BURST - 1)) * interval
  }

  /** The bound is attained: 16 at once and then one per interval are all admitted, for as
      many intervals as one likes. */
  lemma RateBoundTight(reqs: seq<Request>, start: u64, interval: nat)
    requires Usable(interval) && AllInRange(reqs, interval)
    requires forall i | 0 <= i < |reqs| :: reqs[i].now == LadderTime(start, i, interval)
    ensures Admitted(0, reqs, interval) == Times(reqs)
  {
    forall i, j | 0 <= i <= j < |reqs| ensures Fits(Times(reqs), interval, i, j) {
      LadderFits(start, i, j, interval);
      assert Times(reqs)[i] == LadderTime(start, i, interval) && Times(reqs)[j] == LadderTime(start, j, interval);
    }
    AdmitsAllIffConforms(0, reqs, interval);
  }

  lemma LadderFits(start: int, i: nat, j: nat, interval: nat)
    requires i <= j
    ensures (j - i) * interval <= LadderTime(start, j, interval) - LadderTime(start, i, interval) + (REKEY_BURST - 1) * interval
  {
    Distribute(j - i, j, i, interval);
    if j >= REKEY_BURST { Distribute(j - (REKEY_BURST - 1), j, REKEY_BURST - 1, interval); }
    if i >= REKEY_BURST { Distribute(i - (REKEY_BURST - 1), i, REKEY_BURST - 1, interval); }
    if j < REKEY_BURST { Scaled(j, REKEY_BURST - 1, interval); }
    Scaled(0, i, interval);
  }

  lemma Distribute(d: int, a: int, b: int, interval: int)
    requires d == a - b
    ensures d * interval == a * interval - b * interval
  {}

  lemma Scaled(m: nat, k: nat, interval: nat)
    requires m <= k
    ensures 0 <= m * interval <= k * interval
  {}

  // ---- failed clock reads ------------------------------------------------------------

  /** The requests whose clock read succeeded. */
  function Clocked(reqs: seq<Request>): (r: seq<Request>)
  {
    if reqs == [] then [] else (if reqs[0].now == 0 then [] else [reqs[0]]) + Clocked(reqs[1..])
  }

  function NonZero(times: seq<u64>): (r: seq<u64>)
  {
    if times == [] then [] else (if times[0] == 0 then [] else [times[0]]) + NonZero(times[1..])
  }

  lemma NonZeroCons(t: u64, times: seq<u64>)
    ensures NonZero([t] + times) == (if t == 0 then [] else [t]) + NonZero(times)
  {
    assert ([t] + times)[1..] == times;
  }

  /** Requests at time zero are let through and spend nothing: the rest of the run is answered
      as if they had not come. */
  lemma {:induction false} ZeroTimesAside(tat: u64, reqs: seq<Request>, interval: nat)
    ensures NonZero(Admitted(tat, reqs, interval)) == Admitted(tat, Clocked(reqs), interval)
    decreases |reqs|
  {
    if reqs != [] {
      var now := reqs[0].now;
      var next := After(tat, now, interval);
      ZeroTimesAside(next, reqs[1..], interval);
      NonZeroCons(now, Admitted(next, reqs[1..], interval));
      var rest := Clocked(reqs[1..]);
      if now == 0 {
        assert Clocked(reqs) == rest;
      } else {
        assert Clocked(reqs) == [reqs[0]] + rest;
        AdmittedCons(tat, reqs[0], rest, interval);
      }
    }
  }

  // ---- the end of the clock ----------------------------------------------------------

  /** `n` requests at one time. */
  function AtOnce(now: u64, n: nat): (r: seq<Request>)
    ensures |r| == n && forall i | 0 <= i < n :: r[i] == Request(Decrypt, now)
  {
    seq(n, _ => Request(Decrypt, now))
  }

  /** The due times of a run at the one time `now`: spent, or some intervals ahead. */
  predicate Stuck(tat: u64, now: u64, interval: nat) {
    tat < now || exists k | 0 <= k < REKEY_BURST :: tat == now + k * interval
  }

  lemma Small(k: nat, m: nat, interval: nat)
    requires k <= m
    ensures k * interval <= m * interval && (k + 1) * interval == k * interval + interval
  {
  }

  /** Within 16 intervals of the end the due time wraps before it is 16 intervals ahead, so
      the next request finds it in the past. */
  lemma StuckStep(tat: u64, now: u64, interval: nat)
    requires Usable(interval) && now > 0 && now + REKEY_BURST * interval >= U64_MOD && Stuck(tat, now, interval)
    ensures Admits(tat, now, interval) && Stuck(After(tat, now, interval), now, interval)
  {
    var k := 0;
    if tat >= now {
      k :| 0 <= k < REKEY_BURST && tat == now + k * interval;
    }
    hide Admits, After;
    Small(k, REKEY_BURST - 1, interval);
    StepAhead(tat, now, interval, k * interval);
    if After(tat, now, interval) >= now {
      assert k + 1 < REKEY_BURST && After(tat, now, interval) == now + (k + 1) * interval;
    }
  }

  /** One admission with the due time `ahead` of `now`: it moves on, or wraps to before `now`. */
  lemma StepAhead(tat: u64, now: u64, interval: nat, ahead: nat)
    requires Usable(interval) && now > 0 && ahead <= (REKEY_BURST - 1) * interval
    requires tat == now + ahead || (tat < now && ahead == 0)
    ensures Admits(tat, now, interval)
    ensures var due := now + ahead + interval;
            if due < U64_MOD then After(tat, now, interval) == due else After(tat, now, interval) < now
  {
    var due := now + ahead + interval;
    assert due < 2 * U64_MOD;
    assert due >= U64_MOD ==> due % U64_MOD == due - U64_MOD;
  }

  lemma {:induction false} AllAdmitted(tat: u64, now: u64, n: nat, interval: nat)
    requires Usable(interval) && now > 0 && now + REKEY_BURST * interval >= U64_MOD && Stuck(tat, now, interval)
    ensures Admitted(tat, AtOnce(now, n), interval) == Times(AtOnce(now, n))
    ensures BudgetAnswers(tat, AtOnce(now, n), interval) == seq(n, _ => true)
    decreases n
  {
    if n > 0 {
      StuckStep(tat, now, interval);
      AllAdmitted(After(tat, now, interval), now, n - 1, interval);
      assert AtOnce(now, n)[1..] == AtOnce(now, n - 1);
      assert Times(AtOnce(now, n)) == [now] + Times(AtOnce(now, n - 1));
      assert seq(n, _ => true) == [true] + seq(n - 1, _ => true);
    }
  }

  /** Near the end of the clock nobody is refused: from a full budget any number of requests
      at one instant is admitted. */
  lemma BudgetGoneNearEnd(now: u64, n: nat, interval: nat)
    requires Usable(interval) && now > 0 && now + REKEY_BURST * interval >= U64_MOD
    ensures Admitted(0, AtOnce(now, n), interval) == Times(AtOnce(now, n))
    ensures n > REKEY_BURST ==> !Conforms(Admitted(0, AtOnce(now, n), interval), interval)
  {
    AllAdmitted(0, now, n, interval);
    if n > REKEY_BURST {
      assert !Fits(Times(AtOnce(now, n)), interval, 0, REKEY_BURST);
    }
  }

  /** Times that are no failed read and no later than `last`. */
  ghost predicate UpTo(reqs: seq<Request>, last: u64) {
    forall i | 0 <= i < |reqs| :: 0 < reqs[i].now <= last
  }

  lemma UpToInRange(reqs: seq<Request>, last: u64, interval: nat)
    requires UpTo(reqs, last) && last + REKEY_BURST * interval < U64_MOD
    ensures AllInRange(reqs, interval)
  {
  }

  /** What every run up to `last` admits conforms, from any history. */
  ghost predicate AlwaysConforms(last: u64, interval: nat) {
    forall tat: u64, reqs: seq<Request> | UpTo(reqs, last) :: Conforms(Admitted(tat, reqs, interval), interval)
  }

  /** The rate bound holds for every run up to a time exactly when that time is more than 16
      intervals before the end of the 64-bit clock. */
  lemma BoundHoldsIff(last: u64, interval: nat)
    requires Usable(interval) && last > 0
    ensures AlwaysConforms(last, interval) <==> last + REKEY_BURST * interval < U64_MOD
  {
    if last + REKEY_BURST * interval < U64_MOD {
      forall tat: u64, reqs: seq<Request> | UpTo(reqs, last) ensures Conforms(Admitted(tat, reqs, interval), interval) {
        UpToInRange(reqs, last, interval);
        forall i, j | 0 <= i <= j < |Admitted(tat, reqs, interval)| ensures Fits(Admitted(tat, reqs, interval), interval, i, j) {
          AdmittedConform(tat, reqs, interval, i, j);
        }
      }
    } else {
      BudgetGoneNearEnd(last, REKEY_BURST + 1, interval);
      assert UpTo(AtOnce(last, REKEY_BURST + 1), last);
    }
  }

  /** From a full budget, a run up to `last` is admitted whole just when it conforms. */
  ghost predicate AlwaysFair(last: u64, interval: nat) {
    forall tat: u64, reqs: seq<Request> | UpTo(reqs, last) && (reqs != [] ==> tat <= reqs[0].now) ::
      Admitted(tat, reqs, interval) == Times(reqs) <==> Conforms(Times(reqs), interval)
  }

  lemma FairIff(last: u64, interval: nat)
    requires Usable(interval) && last > 0
    ensures AlwaysFair(last, interval) <==> last + REKEY_BURST * interval < U64_MOD
  {
    if last + REKEY_BURST * interval < U64_MOD {
      forall tat: u64, reqs: seq<Request> | UpTo(reqs, last) && (reqs != [] ==> tat <= reqs[0].now)
        ensures Admitted(tat, reqs, interval) == Times(reqs) <==> Conforms(Times(reqs), interval)
      {
        UpToInRange(reqs, last, interval);
        AdmitsAllIffConforms(tat, reqs, interval);
      }
    } else {
      var reqs := AtOnce(last, REKEY_BURST + 1);
      BudgetGoneNearEnd(last, REKEY_BURST + 1, interval);
      assert UpTo(reqs, last);
    }
  }

  // ---- the token bucket --------------------------------------------------------------

  /** An explicit bucket of 16 tokens refilled one per interval: `credit` counts the ticks
      refilled, an interval's worth being one token. */
  datatype Bucket = Bucket(credit: int, at: u64)

  function Refilled(b: Bucket, now: u64, interval: nat): (credit: int)
  {
    var c := b.credit + (now - b.at);
    if c > REKEY_BURST * interval then REKEY_BURST * interval else c
  }

  function BucketAnswers(b: Bucket, reqs: seq<Request>, interval: nat): (r: seq<bool>)
    ensures |r| == |reqs|
    decreases |reqs|
  {
    if reqs == [] then []
    else
      var credit := Refilled(b, reqs[0].now, interval);
      [credit >= interval] +
      BucketAnswers(Bucket(if credit >= interval then credit - interval else credit, reqs[0].now), reqs[1..], interval)
  }

  function BudgetAnswers(tat: u64, reqs: seq<Request>, interval: nat): (r: seq<bool>)
    ensures |r| == |reqs|
    decreases |reqs|
  {
    if reqs == [] then []
    else [Admits(tat, reqs[0].now, interval)] + BudgetAnswers(After(tat, reqs[0].now, interval), reqs[1..], interval)
  }

  /** The due time says how much of the bucket is spent. */
  predicate Matches(tat: u64, b: Bucket, interval: nat) {
    b.credit == REKEY_BURST * interval - if tat > b.at then tat - b.at else 0
  }

  ghost predicate NonDecreasing(at: u64, reqs: seq<Request>) {
    reqs != [] ==> at <= reqs[0].now && forall i | 0 < i < |reqs| :: reqs[i - 1].now <= reqs[i].now
  }

  /** The one timestamp refines the bucket: over every run at non-decreasing times both give
      the same answer to every request. */
  lemma {:induction false} BudgetRefinesBucket(tat: u64, b: Bucket, reqs: seq<Request>, interval: nat)
    requires Usable(interval) && AllInRange(reqs, interval) && NonDecreasing(b.at, reqs)
    requires Matches(tat, b, interval)
    ensures BudgetAnswers(tat, reqs, interval) == BucketAnswers(b, reqs, interval)
    decreases |reqs|
  {
    if reqs != [] {
      var now, rest := reqs[0].now, reqs[1..];
      var credit := Refilled(b, now, interval);
      var b' := Bucket(if credit >= interval then credit - interval else credit, now);
      AfterGrows(tat, now, interval);
      assert Matches(After(tat, now, interval), b', interval);
      forall i | 0 < i < |rest| ensures rest[i - 1].now <= rest[i].now {
        assert reqs[(i + 1) - 1].now <= reqs[i + 1].now;
      }
      if rest != [] { assert reqs[1 - 1].now <= reqs[1].now; }
      BudgetRefinesBucket(After(tat, now, interval), b', rest, interval);
    }
  }

  /** A fresh key, or one whose passphrase was just set, is a full bucket. */
  lemma FreshIsFull(at: u64, interval: nat)
    ensures Matches(0, Bucket(REKEY_BURST * interval, at), interval)
  {}

  lemma {:induction false} BucketRunsOut(now: u64, k: nat, interval: nat)
    requires interval > 0 && k <= REKEY_BURST
    ensures BucketAnswers(Bucket(k * interval, now), AtOnce(now, k + 1), interval)[k] == false
    decreases k
  {
    var reqs := AtOnce(now, k + 1);
    assert reqs[1..] == AtOnce(now, k);
    if k > 0 {
      Small(k - 1, REKEY_BURST - 1, interval);
      Small(k, REKEY_BURST, interval);
      BucketRunsOut(now, k - 1, interval);
      assert k * interval - interval == (k - 1) * interval;
    }
  }

  /** The budget answers as its bucket over every run up to `last`. */
  ghost predicate AlwaysRefines(last: u64, interval: nat) {
    forall tat: u64, b: Bucket, reqs: seq<Request> | UpTo(reqs, last) && NonDecreasing(b.at, reqs) && Matches(tat, b, interval) ::
      BudgetAnswers(tat, reqs, interval) == BucketAnswers(b, reqs, interval)
  }

  /** And that, too, holds exactly when the run ends early enough. */
  lemma RefinesIff(last: u64, interval: nat)
    requires Usable(interval) && last > 0
    ensures AlwaysRefines(last, interval) <==> last + REKEY_BURST * interval < U64_MOD
  {
    if last + REKEY_BURST * interval < U64_MOD {
      forall tat: u64, b: Bucket, reqs: seq<Request> | UpTo(reqs, last) && NonDecreasing(b.at, reqs) && Matches(tat, b, interval)
        ensures BudgetAnswers(tat, reqs, interval) == BucketAnswers(b, reqs, interval)
      {
        UpToInRange(reqs, last, interval);
        BudgetRefinesBucket(tat, b, reqs, interval);
      }
    } else {
      var reqs, b := AtOnce(last, REKEY_BURST + 1), Bucket(REKEY_BURST * interval, last);
      AllAdmitted(0, last, REKEY_BURST + 1, interval);
      BucketRunsOut(last, REKEY_BURST, interval);
      FreshIsFull(last, interval);
      assert BudgetAnswers(0, reqs, interval)[REKEY_BURST] == true;
      assert UpTo(reqs, last) && NonDecreasing(b.at, reqs) && Matches(0, b, interval);
    }
  }
}
