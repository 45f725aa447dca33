/** When the release gate lets a commit out, exactly, and what a new archive row can change. */
module ReleaseGateLaws {
  import opened Bytes
  import opened ReleaseGate

  // ---- order -------------------------------------------------------------------------

  ghost predicate NewestFirst(rows: seq<Row>, order: seq<nat>)
    requires InBounds(order, |rows|)
  {
    forall a, b | 0 <= a < b < |order| :: Newer(rows, order[a], order[b])
  }

  lemma {:induction false} InsertNewestFirst(rows: seq<Row>, i: nat, order: seq<nat>)
    requires i < |rows| && InBounds(order, |rows|) && NewestFirst(rows, order) && i !in order
    ensures NewestFirst(rows, InsertByDate(rows, i, order))
  {
    if order != [] {
      var rest := order[1..];
      forall a, b | 0 <= a < b < |rest| ensures Newer(rows, rest[a], rest[b]) {
        assert Newer(rows, order[a + 1], order[b + 1]);
      }
      if Newer(rows, i, order[0]) {
        var r := [i] + order;
        forall b | 0 < b < |r| ensures Newer(rows, i, r[b]) {
          assert b > 1 ==> Newer(rows, order[0], order[b - 1]);
        }
      } else {
        InsertNewestFirst(rows, i, rest);
        var p := InsertByDate(rows, i, rest);
        forall b | 0 <= b < |p| ensures Newer(rows, order[0], p[b]) {
          InsertMembers(rows, i, rest, p[b]);
          if p[b] in rest {
            var k :| 0 <= k < |rest| && rest[k] == p[b];
            assert Newer(rows, order[0], order[k + 1]);
          }
        }
      }
    }
  }

  lemma {:induction false} OrderNewestFirst(rows: seq<Row>, n: nat)
    requires n <= |rows|
    ensures NewestFirst(rows, OrderOf(rows, n)) && forall j :: j in OrderOf(rows, n) <==> 0 <= j < n
  {
    if n > 0 {
      OrderNewestFirst(rows, n - 1);
      InsertNewestFirst(rows, n - 1, OrderOf(rows, n - 1));
      forall j: nat ensures j in OrderOf(rows, n) <==> j < n {
        InsertMembers(rows, n - 1, OrderOf(rows, n - 1), j);
      }
    }
  }

  // ---- the chosen soak ---------------------------------------------------------------

  /** Long enough, and its tree is equivalent to the one to be released. */
  predicate Good(g: Git, r: Row, required: nat) {
    ReleaseLength(r, required) && StandingOf(g, r.tree) == Equivalent
  }

  /** The newest good one. */
  ghost predicate NewestGood(g: Git, rows: seq<Row>, required: nat, c: nat) {
    && c < |rows| && Good(g, rows[c], required)
    && forall i | 0 <= i < |rows| && Good(g, rows[i], required) :: i == c || Newer(rows, c, i)
  }

  lemma {:induction false} PickLongExact(g: Git, rows: seq<Row>, order: seq<nat>, required: nat, first: Option<nat>)
    requires InBounds(order, |rows|) && NewestFirst(rows, order)
    requires first.Some? ==> first.value < |rows| && !Good(g, rows[first.value], required)
    ensures var p := PickLong(g, rows, order, required, first);
            if exists k | 0 <= k < |order| :: Good(g, rows[order[k]], required) then
              && p.Some? && Good(g, rows[p.value], required) && p.value in order
              && forall k | 0 <= k < |order| && Good(g, rows[order[k]], required) ::
                   order[k] == p.value || Newer(rows, p.value, order[k])
            else p.Some? ==> !Good(g, rows[p.value], required)
    decreases |order|
  {
    if order != [] {
      var rest := order[1..];
      forall a, b | 0 <= a < b < |rest| ensures Newer(rows, rest[a], rest[b]) {
        assert Newer(rows, order[a + 1], order[b + 1]);
      }
      if !Good(g, rows[order[0]], required) {
        var next := if !ReleaseLength(rows[order[0]], required) || first.Some? then first else Some(order[0]);
        PickLongExact(g, rows, rest, required, next);
        forall k | 0 <= k < |order| && Good(g, rows[order[k]], required) ensures order[k] == rest[k - 1] {}
        if exists k | 0 <= k < |order| :: Good(g, rows[order[k]], required) {
          var k :| 0 <= k < |order| && Good(g, rows[order[k]], required);
          assert Good(g, rows[rest[k - 1]], required);
        }
      } else {
        assert Good(g, rows[order[0]], required);
      }
    }
  }

  /** The pick is the newest good soak if there is one; otherwise it is not good. */
  lemma PickExact(g: Git, rows: seq<Row>, required: nat)
    requires rows != []
    ensures var p := Pick(g, rows, required);
            if Good(g, rows[p], required) then NewestGood(g, rows, required, p)
            else forall i | 0 <= i < |rows| :: !Good(g, rows[i], required)
  {
    var order := ByDate(rows);
    OrderNewestFirst(rows, |rows|);
    PickLongExact(g, rows, order, required, None);
    if exists i | 0 <= i < |rows| :: Good(g, rows[i], required) {
      var i :| 0 <= i < |rows| && Good(g, rows[i], required);
      assert i in order;
      var k :| 0 <= k < |order| && order[k] == i;
      assert Good(g, rows[order[k]], required);
      var p := Pick(g, rows, required);
      forall j | 0 <= j < |rows| && Good(g, rows[j], required) ensures j == p || Newer(rows, p, j) {
        assert j in order;
        var m :| 0 <= m < |order| && order[m] == j;
      }
    } else {
      assert !Good(g, rows[Pick(g, rows, required)], required);
    }
  }

  function FirstLong(rows: seq<Row>, order: seq<nat>, required: nat): (r: Option<nat>)
    requires InBounds(order, |rows|)
  {
    if order == [] then None
    else if ReleaseLength(rows[order[0]], required) then Some(order[0])
    else FirstLong(rows, order[1..], required)
  }

  lemma {:induction false} PickLongNoneGood(g: Git, rows: seq<Row>, order: seq<nat>, required: nat, first: Option<nat>)
    requires InBounds(order, |rows|) && (first.Some? ==> first.value < |rows|)
    requires forall i | 0 <= i < |rows| :: !Good(g, rows[i], required)
    ensures PickLong(g, rows, order, required, first) == if first.Some? then first else FirstLong(rows, order, required)
    decreases |order|
  {
    if order != [] {
      var i := order[0];
      assert !Good(g, rows[i], required);
      PickLongNoneGood(g, rows, order[1..], required,
                       if ReleaseLength(rows[i], required) && first.None? then Some(i) else first);
    }
  }

  lemma {:induction false} FirstLongNewest(rows: seq<Row>, order: seq<nat>, required: nat)
    requires InBounds(order, |rows|) && NewestFirst(rows, order)
    ensures match FirstLong(rows, order, required)
            case None => forall k | 0 <= k < |order| :: !ReleaseLength(rows[order[k]], required)
            case Some(p) =>
              && p < |rows| && ReleaseLength(rows[p], required)
              && forall k | 0 <= k < |order| && ReleaseLength(rows[order[k]], required) ::
                   order[k] == p || Newer(rows, p, order[k])
  {
    if order != [] && !ReleaseLength(rows[order[0]], required) {
      var rest := order[1..];
      forall a, b | 0 <= a < b < |rest| ensures Newer(rows, rest[a], rest[b]) {
        assert Newer(rows, order[a + 1], order[b + 1]);
      }
      FirstLongNewest(rows, rest, required);
      forall k | 0 <= k < |order| && ReleaseLength(rows[order[k]], required) ensures order[k] == rest[k - 1] {}
    }
  }

  /** `c` is the newest of the rows that `required` admits. */
  ghost predicate NewestLong(rows: seq<Row>, required: nat, c: nat) {
    && c < |rows| && ReleaseLength(rows[c], required)
    && forall i | 0 <= i < |rows| && ReleaseLength(rows[i], required) :: i == c || Newer(rows, c, i)
  }

  /** With no good soak the pick is the newest of release length; with none of those, the
      newest of any length. */
  lemma PickFallback(g: Git, rows: seq<Row>, required: nat)
    requires rows != [] && forall i | 0 <= i < |rows| :: !Good(g, rows[i], required)
    ensures var p := Pick(g, rows, required);
            if exists i | 0 <= i < |rows| :: ReleaseLength(rows[i], required) then NewestLong(rows, required, p)
            else forall i | 0 <= i < |rows| :: i == p || Newer(rows, p, i)
  {
    var order, p := ByDate(rows), Pick(g, rows, required);
    OrderNewestFirst(rows, |rows|);
    PickLongNoneGood(g, rows, order, required, None);
    FirstLongNewest(rows, order, required);
    if exists i | 0 <= i < |rows| :: ReleaseLength(rows[i], required) {
      var i :| 0 <= i < |rows| && ReleaseLength(rows[i], required);
      var k := PlaceOf(rows, i);
      assert ReleaseLength(rows[order[k]], required);
      forall j | 0 <= j < |rows| && ReleaseLength(rows[j], required) ensures j == p || Newer(rows, p, j) {
        var m := PlaceOf(rows, j);
      }
    } else {
      forall j | 0 <= j < |rows| ensures j == p || Newer(rows, p, j) {
        var m := PlaceOf(rows, j);
        assert m > 0 ==> Newer(rows, order[0], order[m]);
      }
    }
  }

  lemma PlaceOf(rows: seq<Row>, i: nat) returns (k: nat)
    requires i < |rows|
    ensures k < |ByDate(rows)| && ByDate(rows)[k] == i
  {
    OrderNewestFirst(rows, |rows|);
    assert i in ByDate(rows);
    k :| k < |ByDate(rows)| && ByDate(rows)[k] == i;
  }

  // ---- negative evidence -------------------------------------------------------------

  /** Row `i` speaks against `c`: newer, not a pass, and its tree not known to differ. */
  ghost predicate Against(g: Git, rows: seq<Row>, i: nat, c: nat)
    requires i < |rows| && c < |rows|
  {
    DispositionOf(rows[i]) != Pass && Newer(rows, i, c) && StandingOf(g, rows[i].tree) != Superseded
  }

  lemma {:induction false} NegativeEmpty(g: Git, rows: seq<Row>, order: seq<nat>, c: nat)
    requires InBounds(order, |rows|) && c < |rows|
    ensures Negative(g, rows, order, c) == [] <==> forall k | 0 <= k < |order| :: !Against(g, rows, order[k], c)
  {
    if order != [] {
      NegativeEmpty(g, rows, order[1..], c);
      assert NegativeReason(g, rows, order[0], c) == [] <==> !Against(g, rows, order[0], c);
      assert forall k | 1 <= k < |order| :: order[k] == order[1..][k - 1];
    }
  }

  lemma NegativeExact(g: Git, rows: seq<Row>, c: nat)
    requires c < |rows|
    ensures Negative(g, rows, ByDate(rows), c) == [] <==> forall i | 0 <= i < |rows| :: !Against(g, rows, i, c)
  {
    var order := ByDate(rows);
    OrderNewestFirst(rows, |rows|);
    NegativeEmpty(g, rows, order, c);
    if forall k | 0 <= k < |order| :: !Against(g, rows, order[k], c) {
      forall i | 0 <= i < |rows| ensures !Against(g, rows, i, c) {
        assert i in order;
        var k :| 0 <= k < |order| && order[k] == i;
      }
    }
  }

  ghost predicate UniqueIds(rows: seq<Row>) {
    forall i, j | 0 <= i < j < |rows| :: rows[i].id != rows[j].id
  }

  /** The soak side of a pass: the newest good soak is a raw pass with every leg, and nothing
      speaks against it. */
  ghost predicate SoakPasses(g: Git, soaks: seq<Row>, required: nat, c: nat) {
    && NewestGood(g, soaks, required, c)
    && DispositionOf(soaks[c]) == Pass && soaks[c].legs == Some(RELEASE_SOAK_LEGS)
    && forall i | 0 <= i < |soaks| :: !Against(g, soaks, i, c)
  }

  lemma LegsNeeded(r: Row, required: nat)
    ensures LengthAndLegs(r, required) == [] <==> ReleaseLength(r, required) && r.legs == Some(RELEASE_SOAK_LEGS)
  {
    assert "srt" in RELEASE_SOAK_LEGS;
  }

  lemma SoakPick(g: Git, soaks: seq<Row>, required: nat)
    requires soaks != [] && UniqueIds(soaks)
    ensures var p := Pick(g, soaks, required);
            && FirstWithId(soaks, soaks[p].id) == p
            && ((StandingOf(g, soaks[p].tree) != Unresolved && SoakReasons(g, soaks, required) == [])
                <==> SoakPasses(g, soaks, required, p))
  {
    var p := Pick(g, soaks, required);
    assert soaks[p] in soaks;
    PickExact(g, soaks, required);
    NegativeExact(g, soaks, p);
    LegsNeeded(soaks[p], required);
    var paths := Changed(g, soaks[p].tree);
    assert paths.Some? && |paths.value| == 0 ==> paths.value == [];
  }

  lemma PassingSoakIsPick(g: Git, soaks: seq<Row>, required: nat, c: nat)
    requires soaks != [] && NewestGood(g, soaks, required, c)
    ensures Pick(g, soaks, required) == c
  {
    PickExact(g, soaks, required);
  }

  // ---- the corpus --------------------------------------------------------------------

  predicate Candidate(g: Git, r: Row) { r.kind == Corpus && StandingOf(g, r.tree) == Equivalent }

  ghost predicate NewestCandidate(g: Git, rows: seq<Row>, n: nat, c: nat)
    requires n <= |rows|
  {
    && c < n && Candidate(g, rows[c])
    && forall i | 0 <= i < n && Candidate(g, rows[i]) :: i == c || Newer(rows, c, i)
  }

  lemma {:induction false} NewestCorpusExact(g: Git, rows: seq<Row>, n: nat)
    requires n <= |rows|
    ensures match NewestCorpus(g, rows, n)
            case None => forall i | 0 <= i < n :: !Candidate(g, rows[i])
            case Some(c) => NewestCandidate(g, rows, n, c)
  {
    if n > 0 { NewestCorpusExact(g, rows, n - 1); }
  }

  lemma NoneAdded(a: seq<Reason>, b: bool, r: Reason)
    ensures a + When(b, r) == [] <==> a == [] && !b
    ensures !b ==> a + When(b, r) == a
  {
  }

  lemma {:induction false} UnresolvedExact(g: Git, rows: seq<Row>, n: nat, c: Option<nat>)
    requires n <= |rows| && (c.Some? ==> c.value < |rows|)
    ensures UnresolvedCorpus(g, rows, n, c) == [] <==> forall i | 0 <= i < n :: !Hidden(g, rows, i, c)
  {
    if n > 0 {
      UnresolvedExact(g, rows, n - 1, c);
      NoneAdded(UnresolvedCorpus(g, rows, n - 1, c), Hidden(g, rows, n - 1, c), CorpusUnresolved(rows[n - 1].tree));
    }
  }

  /** The release rules of a corpus row. */
  predicate CorpusRowPasses(r: Row, expected: nat) {
    && r.baseline.Some? && r.baseline.value != ""
    && DispositionOf(r) == Pass
    && r.counts.Some?
    && var k := r.counts.value;
       k.replayPaths == REPLAY_PATHS && k.files == expected && k.replayFiles > 0 &&
       k.parseFailures == 0 && k.invariantFailures == 0 && k.replayFailed == 0
  }

  ghost predicate CorpusPasses(g: Git, rows: seq<Row>, expected: nat, c: nat) {
    && NewestCandidate(g, rows, |rows|, c)
    && CorpusRowPasses(rows[c], expected)
    && forall i | 0 <= i < |rows| :: !Hidden(g, rows, i, Some(c))
  }

  lemma CorpusRowExact(r: Row, expected: nat)
    ensures CorpusRowReasons(r, expected) == [] <==> CorpusRowPasses(r, expected)
  {}

  lemma CorpusExact(g: Git, rows: seq<Row>, expected: nat)
    ensures CorpusReasons(g, rows, expected) == [] <==> exists c :: CorpusPasses(g, rows, expected, c)
  {
    var c := NewestCorpus(g, rows, |rows|);
    NewestCorpusExact(g, rows, |rows|);
    UnresolvedExact(g, rows, |rows|, c);
    if c.Some? {
      CorpusRowExact(rows[c.value], expected);
      assert CorpusReasons(g, rows, expected) == [] <==> CorpusPasses(g, rows, expected, c.value);
      forall k | CorpusPasses(g, rows, expected, k) ensures k == c.value {}
    } else {
      assert CorpusReasons(g, rows, expected) != [];
      forall k ensures !CorpusPasses(g, rows, expected, k) {}
    }
  }

  // ---- the gate ----------------------------------------------------------------------

  lemma {:induction false} SoaksUnique(rows: seq<Row>)
    requires UniqueIds(rows)
    ensures UniqueIds(X86Soaks(rows))
    ensures forall r | r in X86Soaks(rows) :: r in rows
  {
    if rows != [] {
      var front := rows[..|rows| - 1];
      SoaksUnique(front);
      assert rows == front + [rows[|rows| - 1]];
      forall r | r in X86Soaks(front) ensures r.id != rows[|rows| - 1].id {
        var i :| 0 <= i < |front| && front[i] == r;
        assert rows[i] == r;
      }
    }
  }

  /** The gate, exactly: no reason is found if and only if the newest release-length x86 soak
      that stands for the commit is a raw pass with all legs and nothing newer speaks against
      it, and the newest equivalent corpus row meets every rule and no newer failed row hides
      behind an unresolvable tree. */
  lemma GateExact(g: Git, archives: seq<Row>, required: nat, expected: nat)
    requires UniqueIds(archives)
    ensures Reasons(g, archives, required, expected) == [] <==>
            && (exists c :: SoakPasses(g, X86Soaks(archives), required, c))
            && (exists k :: CorpusPasses(g, archives, expected, k))
  {
    var soaks := X86Soaks(archives);
    SoaksUnique(archives);
    CorpusExact(g, archives, expected);
    if soaks != [] {
      ReasonsEmpty(g, archives, required, expected);
      SoakSide(g, soaks, required);
    } else {
      NoSoakNoPass(g, required);
    }
  }

  lemma NoSoakNoPass(g: Git, required: nat)
    ensures forall c :: !SoakPasses(g, [], required, c)
  {}

  lemma ReasonsEmpty(g: Git, archives: seq<Row>, required: nat, expected: nat)
    requires X86Soaks(archives) != []
    ensures var soaks := X86Soaks(archives);
            Reasons(g, archives, required, expected) == [] <==>
            && StandingOf(g, soaks[Pick(g, soaks, required)].tree) != Unresolved
            && SoakReasons(g, soaks, required) == [] && CorpusReasons(g, archives, expected) == []
  {
    var a, b := SoakReasons(g, X86Soaks(archives), required), CorpusReasons(g, archives, expected);
    assert a + b == [] <==> a == [] && b == [];
  }

  lemma SoakSide(g: Git, soaks: seq<Row>, required: nat)
    requires soaks != [] && UniqueIds(soaks)
    ensures (StandingOf(g, soaks[Pick(g, soaks, required)].tree) != Unresolved && SoakReasons(g, soaks, required) == [])
       <==> exists c :: SoakPasses(g, soaks, required, c)
  {
    SoakPick(g, soaks, required);
    forall c | SoakPasses(g, soaks, required, c) ensures c == Pick(g, soaks, required) {
      PassingSoakIsPick(g, soaks, required, c);
    }
  }

  // ---- a new row ---------------------------------------------------------------------

  lemma SoaksSnoc(rows: seq<Row>, r: Row)
    ensures X86Soaks(rows + [r]) == X86Soaks(rows) + if IsX86Soak(r) then [r] else []
  {
    assert (rows + [r])[..|rows|] == rows;
  }

  lemma {:induction false} NewestCorpusPrefix(g: Git, rows: seq<Row>, r: Row, n: nat)
    requires n <= |rows|
    ensures NewestCorpus(g, rows + [r], n) == NewestCorpus(g, rows, n)
  {
    if n > 0 { NewestCorpusPrefix(g, rows, r, n - 1); }
  }

  lemma HiddenPrefix(g: Git, rows: seq<Row>, r: Row, i: nat, c: Option<nat>)
    requires i < |rows| && (c.Some? ==> c.value < |rows|)
    ensures Hidden(g, rows + [r], i, c) == Hidden(g, rows, i, c) && (rows + [r])[i] == rows[i]
  {
  }

  lemma {:induction false} UnresolvedPrefix(g: Git, rows: seq<Row>, r: Row, n: nat, c: Option<nat>)
    requires n <= |rows| && (c.Some? ==> c.value < |rows|)
    ensures UnresolvedCorpus(g, rows + [r], n, c) == UnresolvedCorpus(g, rows, n, c)
  {
    if n > 0 {
      UnresolvedPrefix(g, rows, r, n - 1, c);
      HiddenPrefix(g, rows, r, n - 1, c);
    }
  }

  lemma UnresolvedUnmoved(g: Git, rows: seq<Row>, r: Row, c: Option<nat>)
    requires r.kind != Corpus && (c.Some? ==> c.value < |rows|)
    ensures UnresolvedCorpus(g, rows + [r], |rows| + 1, c) == UnresolvedCorpus(g, rows, |rows|, c)
  {
    var all, n := rows + [r], |rows|;
    UnresolvedPrefix(g, rows, r, n, c);
    NoneAdded(UnresolvedCorpus(g, all, n, c), Hidden(g, all, n, c), CorpusUnresolved(r.tree));
  }

  lemma NewestUnmoved(g: Git, rows: seq<Row>, r: Row)
    requires r.kind != Corpus
    ensures NewestCorpus(g, rows + [r], |rows| + 1) == NewestCorpus(g, rows, |rows|)
  {
    NewestCorpusPrefix(g, rows, r, |rows|);
  }

  lemma CorpusUnmoved(g: Git, rows: seq<Row>, r: Row, expected: nat)
    requires r.kind != Corpus
    ensures CorpusReasons(g, rows + [r], expected) == CorpusReasons(g, rows, expected)
  {
    NewestUnmoved(g, rows, r);
    UnresolvedUnmoved(g, rows, r, NewestCorpus(g, rows, |rows|));
  }

  /** An arm64 soak or a stress row, whatever its verdict, changes no reason. */
  lemma ArmAndStressNeverGate(g: Git, archives: seq<Row>, r: Row, required: nat, expected: nat)
    requires IsArmSoak(r) || r.kind == Stress
    ensures Reasons(g, archives + [r], required, expected) == Reasons(g, archives, required, expected)
  {
    SoaksSnoc(archives, r);
    CorpusUnmoved(g, archives, r, expected);
    assert X86Soaks(archives) + [] == X86Soaks(archives);
  }

  /** Failed runs cannot be hidden: a table that passes, given one more x86 soak row that is
      no pass, still passes if and only if the row is older than the chosen soak or its tree
      is known to differ. Its duration does not matter, and an unresolvable tree counts. */
  lemma NegativeEvidenceCounts(g: Git, archives: seq<Row>, r: Row, required: nat, expected: nat)
    requires UniqueIds(archives + [r]) && IsX86Soak(r) && DispositionOf(r) != Pass
    requires X86Soaks(archives) != [] && Reasons(g, archives, required, expected) == []
    ensures var chosen := X86Soaks(archives)[Pick(g, X86Soaks(archives), required)];
            Reasons(g, archives + [r], required, expected) == [] <==>
            r.date < chosen.date || StandingOf(g, r.tree) == Superseded
  {
    var soaks := X86Soaks(archives);
    UniquePrefix(archives, r);
    SoaksUnique(archives);
    SoaksUnique(archives + [r]);
    SoaksSnoc(archives, r);
    CorpusUnmoved(g, archives, r, expected);
    SoakPick(g, soaks, required);
    SoakPick(g, soaks + [r], required);
    AppendedSoak(g, soaks, r, required, Pick(g, soaks, required));
  }

  lemma UniquePrefix(rows: seq<Row>, r: Row)
    requires UniqueIds(rows + [r])
    ensures UniqueIds(rows)
  {
    forall i, j | 0 <= i < j < |rows| ensures rows[i].id != rows[j].id {
      assert (rows + [r])[i].id != (rows + [r])[j].id;
    }
  }

  lemma AppendedSoak(g: Git, soaks: seq<Row>, r: Row, required: nat, c: nat)
    requires SoakPasses(g, soaks, required, c) && DispositionOf(r) != Pass
    ensures SoakPasses(g, soaks + [r], required, Pick(g, soaks + [r], required)) <==>
            r.date < soaks[c].date || StandingOf(g, r.tree) == Superseded
  {
    var all, n := soaks + [r], |soaks|;
    var p := Pick(g, all, required);
    PickExact(g, all, required);
    if r.date < soaks[c].date || StandingOf(g, r.tree) == Superseded {
      AppendedHarmless(g, soaks, r, required, c);
      PassingSoakIsPick(g, all, required, c);
    } else {
      AppendedHarmful(g, soaks, r, required, c, p);
    }
  }

  lemma AppendedHarmful(g: Git, soaks: seq<Row>, r: Row, required: nat, c: nat, p: nat)
    requires SoakPasses(g, soaks, required, c) && DispositionOf(r) != Pass
    requires r.date >= soaks[c].date && StandingOf(g, r.tree) != Superseded
    ensures !SoakPasses(g, soaks + [r], required, p)
  {
    var all, n := soaks + [r], |soaks|;
    assert Newer(all, n, c) && Good(g, all[c], required);
    if p < n && NewestGood(g, all, required, p) {
      assert Good(g, soaks[p], required);
      assert p == c;
      assert Against(g, all, n, c);
    }
  }

  lemma AppendedHarmless(g: Git, soaks: seq<Row>, r: Row, required: nat, c: nat)
    requires SoakPasses(g, soaks, required, c) && DispositionOf(r) != Pass
    requires r.date < soaks[c].date || StandingOf(g, r.tree) == Superseded
    ensures SoakPasses(g, soaks + [r], required, c)
  {
    var all := soaks + [r];
    forall i | 0 <= i < |all| && Good(g, all[i], required) ensures i == c || Newer(all, c, i) {
      if i < |soaks| { assert i == c || Newer(soaks, c, i); }
    }
    forall i | 0 <= i < |all| ensures !Against(g, all, i, c) {
      if i < |soaks| { assert !Against(g, soaks, i, c); }
    }
  }
}
