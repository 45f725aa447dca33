/** `release_vm` as the script runs it, with the memo that asks git once per tree, proved to
    give the gate that recomputes every difference. */
module ReleaseVm {
  import opened Bytes
  import opened ReleaseGate

  /** The `memo` dictionary and the git calls made to fill it. */
  class TreeMemo {
    const g: Git
    var known: map<string, Option<seq<string>>>
    var gitCalls: nat

    ghost predicate Valid()
      reads this
    {
      gitCalls <= |known| && forall t | t in known :: known[t] == ReleaseGate.Changed(g, t)
    }

    constructor (g: Git)
      ensures Valid() && this.g == g && known == map[] && gitCalls == 0
    {
      this.g, known, gitCalls := g, map[], 0;
    }

    /** `_changed`: git runs at most once for each tree ever asked about. */
    method Changed(tree: string) returns (r: Option<seq<string>>)
      requires Valid()
      modifies this
      ensures Valid() && r == ReleaseGate.Changed(g, tree)
      ensures tree in known && known.Keys == old(known.Keys) + {tree}
    {
      if tree !in known {
        var answer: Option<seq<string>>;
        if tree == g.sha {
          answer := Some([]);
        } else {
          gitCalls := gitCalls + 1;
          var diff := g.diff(tree);
          match diff {
            case Names(paths) =>
              var outside := KeepOutside(paths);
              answer := Some(outside);
            case GitError(_) => answer := None;
          }
        }
        known := known[tree := answer];
      }
      r := known[tree];
    }

    /** `_stands_for` */
    method StandsFor(tree: string) returns (s: Standing)
      requires Valid()
      modifies this
      ensures Valid() && s == StandingOf(g, tree)
    {
      var changed := Changed(tree);
      s := match changed case None => Unresolved case Some(paths) => if paths == [] then Equivalent else Superseded;
    }
  }

  method KeepOutside(paths: seq<string>) returns (r: seq<string>)
    ensures r == Outside(paths)
  {
    r := [];
    for i := 0 to |paths|
      invariant r + Outside(paths[i..]) == Outside(paths)
    {
      assert paths[i..][0] == paths[i] && paths[i..][1..] == paths[i + 1..];
      if !IsReleaseDocument(paths[i]) { r := r + [paths[i]]; }
    }
    assert paths[|paths|..] == [];
  }

  /** `_pick_soak` */
  method PickSoak(memo: TreeMemo, soaks: seq<Row>, required: nat) returns (i: nat)
    requires memo.Valid() && soaks != []
    modifies memo
    ensures memo.Valid() && i == Pick(memo.g, soaks, required)
  {
    var order := ByDate(soaks);
    OrderComplete(soaks, |soaks|, 0);
    var first: Option<nat> := None;
    for k := 0 to |order|
      invariant memo.Valid() && (first.Some? ==> first.value < |soaks|)
      invariant PickLong(memo.g, soaks, order[k..], required, first) == PickLong(memo.g, soaks, order, required, None)
    {
      assert order[k..][0] == order[k] && order[k..][1..] == order[k + 1..];
      var s := soaks[order[k]];
      if ReleaseLength(s, required) {
        var standing := memo.StandsFor(s.tree);
        if standing == Equivalent { return order[k]; }
        if first.None? { first := Some(order[k]); }
      }
    }
    assert order[|order|..] == [];
    i := if first.Some? then first.value else order[0];
  }

  /** The loop over newer runs that did not pass. */
  method NewerRuns(memo: TreeMemo, soaks: seq<Row>, chosen: nat) returns (reasons: seq<Reason>)
    requires memo.Valid() && chosen < |soaks|
    modifies memo
    ensures memo.Valid() && reasons == Negative(memo.g, soaks, ByDate(soaks), chosen)
  {
    var order := ByDate(soaks);
    reasons := [];
    for k := 0 to |order|
      invariant memo.Valid()
      invariant reasons + Negative(memo.g, soaks, order[k..], chosen) == Negative(memo.g, soaks, order, chosen)
    {
      NegativeStep(memo.g, soaks, order, k, chosen);
      var one := NewerRun(memo, soaks, order[k], chosen);
      Assoc(reasons, one, Negative(memo.g, soaks, order[k + 1..], chosen));
      reasons := reasons + one;
    }
    assert order[|order|..] == [];
  }

  lemma NegativeStep(g: Git, rows: seq<Row>, order: seq<nat>, k: nat, chosen: nat)
    requires InBounds(order, |rows|) && chosen < |rows| && k < |order|
    ensures Negative(g, rows, order[k..], chosen)
         == NegativeReason(g, rows, order[k], chosen) + Negative(g, rows, order[k + 1..], chosen)
  {
    assert order[k..][0] == order[k] && order[k..][1..] == order[k + 1..];
  }

  lemma Assoc(a: seq<Reason>, b: seq<Reason>, c: seq<Reason>)
    ensures a + (b + c) == a + b + c
  {}

  /** One run of that loop. */
  method NewerRun(memo: TreeMemo, soaks: seq<Row>, i: nat, chosen: nat) returns (reasons: seq<Reason>)
    requires memo.Valid() && i < |soaks| && chosen < |soaks|
    modifies memo
    ensures memo.Valid() && reasons == NegativeReason(memo.g, soaks, i, chosen)
  {
    var a := soaks[i];
    if DispositionOf(a) == Pass || !Newer(soaks, i, chosen) { return []; }
    var standing := memo.StandsFor(a.tree);
    reasons := match standing
               case Unresolved => [NewerUnresolved(a.tree)]
               case Equivalent => [NewerFailed(a.id)]
               case Superseded => [];
  }

  /** The loop over the corpus rows: the newest equivalent one and the unresolvable ones. */
  method CorpusRows(memo: TreeMemo, archives: seq<Row>) returns (c: Option<nat>, unresolved: seq<nat>)
    requires memo.Valid()
    modifies memo
    ensures memo.Valid() && c == NewestCorpus(memo.g, archives, |archives|)
    ensures unresolved == UnresolvedRows(memo.g, archives, |archives|)
  {
    c, unresolved := None, [];
    for i := 0 to |archives|
      invariant memo.Valid() && c == NewestCorpus(memo.g, archives, i)
      invariant unresolved == UnresolvedRows(memo.g, archives, i)
    {
      var a := archives[i];
      if a.kind != Corpus { continue; }
      var standing := memo.StandsFor(a.tree);
      match standing {
        case Unresolved => unresolved := unresolved + [i];
        case Equivalent => if c.None? || a.date >= archives[c.value].date { c := Some(i); }
        case Superseded =>
      }
    }
  }

  /** A corpus row whose tree git cannot resolve. */
  predicate Unknown(g: Git, r: Row)
  {
    r.kind == Corpus && StandingOf(g, r.tree) == Unresolved
  }

  ghost function UnresolvedRows(g: Git, rows: seq<Row>, n: nat): (r: seq<nat>)
    requires n <= |rows|
    ensures forall k | 0 <= k < |r| :: r[k] < n
  {
    if n == 0 then []
    else
      var rest := UnresolvedRows(g, rows, n - 1);
      if Unknown(g, rows[n - 1]) then rest + [n - 1] else rest
  }

  /** The reason an unresolved row gives, if it is not a pass and newer than the chosen one. */
  function ReasonOf(rows: seq<Row>, i: nat, c: Option<nat>): seq<Reason>
    requires i < |rows| && (c.Some? ==> c.value < |rows|)
  {
    When(DispositionOf(rows[i]) != Pass && (c.None? || Newer(rows, i, c.value)), CorpusUnresolved(rows[i].tree))
  }

  ghost function ReasonsFor(g: Git, rows: seq<Row>, unresolved: seq<nat>, c: Option<nat>): seq<Reason>
    requires (forall k | 0 <= k < |unresolved| :: unresolved[k] < |rows|) && (c.Some? ==> c.value < |rows|)
  {
    if unresolved == [] then []
    else
      ReasonsFor(g, rows, unresolved[..|unresolved| - 1], c) + ReasonOf(rows, unresolved[|unresolved| - 1], c)
  }

  lemma ReasonsForSnoc(g: Git, rows: seq<Row>, rest: seq<nat>, i: nat, c: Option<nat>)
    requires i < |rows| && (forall k | 0 <= k < |rest| :: rest[k] < |rows|) && (c.Some? ==> c.value < |rows|)
    ensures ReasonsFor(g, rows, rest + [i], c) == ReasonsFor(g, rows, rest, c) + ReasonOf(rows, i, c)
  {
    assert (rest + [i])[..|rest|] == rest;
  }

  lemma UnresolvedStep(g: Git, rows: seq<Row>, n: nat, c: Option<nat>)
    requires 0 < n <= |rows| && (c.Some? ==> c.value < |rows|)
    ensures UnresolvedCorpus(g, rows, n, c)
         == UnresolvedCorpus(g, rows, n - 1, c) + if Unknown(g, rows[n - 1]) then ReasonOf(rows, n - 1, c) else []
  {
    var hidden, reason := Hidden(g, rows, n - 1, c), CorpusUnresolved(rows[n - 1].tree);
    assert When(hidden, reason) == if Unknown(g, rows[n - 1]) then ReasonOf(rows, n - 1, c) else [];
  }

  /** The reasons of a list, with one row more or none. */
  lemma ReasonsForMore(g: Git, rows: seq<Row>, n: nat, c: Option<nat>)
    requires 0 < n <= |rows| && (c.Some? ==> c.value < |rows|)
    ensures ReasonsFor(g, rows, UnresolvedRows(g, rows, n), c)
         == ReasonsFor(g, rows, UnresolvedRows(g, rows, n - 1), c)
            + if Unknown(g, rows[n - 1]) then ReasonOf(rows, n - 1, c) else []
  {
    hide *;
    var rest := UnresolvedRows(g, rows, n - 1);
    UnresolvedRowsStep(g, rows, n);
    if Unknown(g, rows[n - 1]) {
      ReasonsForSnoc(g, rows, rest, n - 1, c);
    } else {
      NothingMore(ReasonsFor(g, rows, rest, c));
    }
  }

  lemma NothingMore(a: seq<Reason>)
    ensures a + [] == a
  {
  }

  lemma UnresolvedRowsStep(g: Git, rows: seq<Row>, n: nat)
    requires 0 < n <= |rows|
    ensures UnresolvedRows(g, rows, n)
         == if Unknown(g, rows[n - 1]) then UnresolvedRows(g, rows, n - 1) + [n - 1] else UnresolvedRows(g, rows, n - 1)
  {
  }

  lemma {:induction false} ReasonsForExact(g: Git, rows: seq<Row>, n: nat, c: Option<nat>)
    requires n <= |rows| && (c.Some? ==> c.value < |rows|)
    ensures ReasonsFor(g, rows, UnresolvedRows(g, rows, n), c) == UnresolvedCorpus(g, rows, n, c)
  {
    if n == 0 {
      NoneUnresolved(g, rows, c);
    } else {
      hide *;
      ReasonsForExact(g, rows, n - 1, c);
      UnresolvedStep(g, rows, n, c);
      ReasonsForMore(g, rows, n, c);
    }
  }

  lemma NoneUnresolved(g: Git, rows: seq<Row>, c: Option<nat>)
    requires c.Some? ==> c.value < |rows|
    ensures ReasonsFor(g, rows, UnresolvedRows(g, rows, 0), c) == UnresolvedCorpus(g, rows, 0, c)
  {
  }

  /** The corpus half of the gate. */
  method CorpusSide(memo: TreeMemo, archives: seq<Row>, expected: nat) returns (c: Option<nat>, reasons: seq<Reason>)
    requires memo.Valid()
    modifies memo
    ensures memo.Valid() && c == NewestCorpus(memo.g, archives, |archives|)
    ensures reasons == CorpusReasons(memo.g, archives, expected)
  {
    var unresolved: seq<nat>;
    c, unresolved := CorpusRows(memo, archives);
    reasons := [];
    for k := 0 to |unresolved|
      invariant reasons == ReasonsFor(memo.g, archives, unresolved[..k], c)
    {
      assert unresolved[..k + 1][..k] == unresolved[..k];
      var a := archives[unresolved[k]];
      if DispositionOf(a) != Pass && (c.None? || Newer(archives, unresolved[k], c.value)) {
        reasons := reasons + [CorpusUnresolved(a.tree)];
      }
    }
    assert unresolved[..|unresolved|] == unresolved;
    ReasonsForExact(memo.g, archives, |archives|, c);
    if c.None? {
      reasons := reasons + [NoCorpus];
    } else {
      var row := CorpusRow(archives[c.value], expected);
      reasons := reasons + row;
    }
  }

  /** The rules of the chosen corpus row, one after another. */
  method CorpusRow(c: Row, expected: nat) returns (reasons: seq<Reason>)
    ensures reasons == CorpusRowReasons(c, expected)
  {
    reasons := When(c.baseline.None? || c.baseline.value == "", NoBaseline(c.id));
    reasons := reasons + When(c.counts.None?, NoCounts(c.id));
    reasons := reasons + CorpusVerdict(c);
    if c.counts.Some? {
      var ofCounts := CountRules(c, c.counts.value, expected);
      reasons := reasons + ofCounts;
    }
  }

  method CountRules(c: Row, k: Counts, expected: nat) returns (reasons: seq<Reason>)
    ensures reasons == CountReasons(c, k, expected)
  {
    reasons := When(k.replayPaths != REPLAY_PATHS, WrongReplayPaths(c.id));
    reasons := reasons + When(k.files != expected, WrongFiles(c.id));
    reasons := reasons + When(k.replayFiles == 0, NothingReplayed(c.id));
    reasons := reasons + When(k.parseFailures != 0, ParseFailures(c.id));
    reasons := reasons + When(k.invariantFailures != 0, InvariantFailures(c.id));
    reasons := reasons + When(k.replayFailed != 0, ReplayFailures(c.id));
  }

  /** The first arm64 soak that stands, newest first. */
  method ArmSoak(memo: TreeMemo, rows: seq<Row>) returns (r: Option<Row>)
    requires memo.Valid()
    modifies memo
    ensures memo.Valid() && r == FirstStanding(memo.g, rows, ByDate(rows))
  {
    var order := ByDate(rows);
    for k := 0 to |order|
      invariant memo.Valid()
      invariant FirstStanding(memo.g, rows, order[k..]) == FirstStanding(memo.g, rows, order)
    {
      assert order[k..][0] == order[k] && order[k..][1..] == order[k + 1..];
      var standing := memo.StandsFor(rows[order[k]].tree);
      if standing == Equivalent { return Some(rows[order[k]]); }
    }
    assert order[|order|..] == [];
    r := None;
  }

  /** The soak half of the gate, for a chosen soak whose tree git resolved. */
  method SoakSide(memo: TreeMemo, soaks: seq<Row>, e: nat, required: nat) returns (reasons: seq<Reason>)
    requires memo.Valid() && soaks != [] && e == Pick(memo.g, soaks, required)
    modifies memo
    ensures memo.Valid() && reasons == SoakReasons(memo.g, soaks, required)
  {
    var soak := soaks[e];
    assert soak in soaks;
    var changed := memo.Changed(soak.tree);
    var n := if changed.Some? then |changed.value| else 0;
    reasons := When(n > 0, SoakSuperseded(soak.id, n)) + SoakVerdict(soak);
    var chosen := IndexOfId(soaks, soak.id);
    var newer := NewerRuns(memo, soaks, chosen);
    reasons := reasons + newer + LengthAndLegs(soak, required);
  }

  /** The first row with the id. */
  method IndexOfId(rows: seq<Row>, id: string) returns (i: nat)
    requires exists r :: r in rows && r.id == id
    ensures i == FirstWithId(rows, id)
  {
    i := 0;
    while i < |rows| && rows[i].id != id
      invariant i <= |rows| && forall j | 0 <= j < i :: rows[j].id != id
    {
      i := i + 1;
    }
    assert i <= FirstWithId(rows, id);
  }

  /** `release_vm` */
  method ReleaseVmGate(g: Git, archives: seq<Row>, release: bool, required: nat, expected: nat) returns (gate: Gate)
    ensures gate == GateOf(g, archives, release, required, expected)
  {
    var memo := new TreeMemo(g);
    var reasons: seq<Reason> := [];
    var soak: Option<Row>, corpus: Option<Row> := None, None;
    var soaks := X86Soaks(archives);
    if soaks == [] {
      reasons := [NoSoak];
    } else {
      var e := PickSoak(memo, soaks, required);
      soak := Some(soaks[e]);
      var changed := memo.Changed(soaks[e].tree);
      if changed.None? {
        reasons := [SoakUnresolved(soaks[e].tree)];
      } else {
        var ofSoak := SoakSide(memo, soaks, e, required);
        var c, ofCorpus := CorpusSide(memo, archives, expected);
        reasons := ofSoak + ofCorpus;
        if c.Some? { corpus := Some(archives[c.value]); }
      }
    }
    var arm: Option<Row> := None;
    if release { arm := ArmSoak(memo, ArmSoaks(archives)); }
    gate := Gate(release, soak, corpus, Worse(EntryDisposition(soak), EntryDisposition(corpus)),
                 if release then reasons else [], arm);
  }
}
