/** The release gate of the qualification record (`release_vm`): which soak and corpus archive
    stand for a commit, and every reason they do not let it out. Git is a given function
    from an archive's tree to the paths that differ from the qualified commit, or an error. */
module ReleaseGate {
  import opened Bytes

  datatype Kind = Soak | Stress | Corpus

  datatype Arch = X86 | Arm64

  datatype Counts = Counts(files: nat, identical: nat, changedExplained: nat, invariantFailures: nat,
                           parseFailures: nat, replayFiles: nat, replayPaths: nat, replayFailed: nat)

  /** One archive. Dates compare as day numbers; the corpus counts are all there or none is. */
  datatype Row = Row(id: string, kind: Kind, tree: string, overallPass: bool, waived: bool, date: int,
                     duration: Option<nat>, legs: Option<set<string>>, arch: Option<Arch>,
                     counts: Option<Counts>, baseline: Option<string>)

  const RELEASE_SOAK_LEGS: set<string> := {"srt", "rist", "rtsp-publish", "rtsp-publish-es", "whep"}
  const ARCHIVE_TABLE := "tests/coverage/evidence-archives.toml"
  const REPLAY_PATHS := 5

  datatype Disposition = Pass | Waived | Fail

  /** `disposition` */
  function DispositionOf(r: Row): Disposition {
    if r.overallPass then Pass else if r.waived then Waived else Fail
  }

  // ---- trees -------------------------------------------------------------------------

  datatype Diff = Names(paths: seq<string>) | GitError(message: string)

  datatype Git = Git(sha: string, diff: string -> Diff)

  predicate StartsWith(s: string, prefix: string) { prefix <= s }

  predicate EndsWith(s: string, suffix: string) { |suffix| <= |s| && s[|s| - |suffix|..] == suffix }

  /** `_is_release_document` */
  predicate IsReleaseDocument(path: string) {
    !(StartsWith(path, "docs/webrtc/") && !EndsWith(path, ".md")) &&
    (path == "CHANGELOG.md" || StartsWith(path, "docs/") || path == ARCHIVE_TABLE)
  }

  function Outside(paths: seq<string>): (r: seq<string>)
  {
    if paths == [] then []
    else if IsReleaseDocument(paths[0]) then Outside(paths[1..])
    else [paths[0]] + Outside(paths[1..])
  }

  /** What changed since `tree`, release documents apart; None for a tree git does not know. */
  function Changed(g: Git, tree: string): (r: Option<seq<string>>)
  {
    if tree == g.sha then Some([])
    else
      match g.diff(tree)
      case Names(paths) => Some(Outside(paths))
      case GitError(_) => None
  }

  datatype Standing = Equivalent | Superseded | Unresolved

  /** `_stands_for` */
  function StandingOf(g: Git, tree: string): Standing {
    match Changed(g, tree)
    case None => Unresolved
    case Some(paths) => if paths == [] then Equivalent else Superseded
  }

  // ---- order -------------------------------------------------------------------------

  /** Row `i` is newer than row `j`: by date, then by position. */
  predicate Newer(rows: seq<Row>, i: nat, j: nat)
    requires i < |rows| && j < |rows|
  {
    rows[i].date > rows[j].date || (rows[i].date == rows[j].date && i > j)
  }

  predicate InBounds(order: seq<nat>, n: nat) { forall k | 0 <= k < |order| :: order[k] < n }

  function InsertByDate(rows: seq<Row>, i: nat, order: seq<nat>): (r: seq<nat>)
    requires i < |rows| && InBounds(order, |rows|)
    ensures InBounds(r, |rows|)
  {
    if order == [] || Newer(rows, i, order[0]) then [i] + order
    else [order[0]] + InsertByDate(rows, i, order[1..])
  }

  /** The first `n` rows, newest first. */
  function OrderOf(rows: seq<Row>, n: nat): (r: seq<nat>)
    requires n <= |rows|
    ensures InBounds(r, |rows|)
  {
    if n == 0 then [] else InsertByDate(rows, n - 1, OrderOf(rows, n - 1))
  }

  /** `_by_date` */
  function ByDate(rows: seq<Row>): (r: seq<nat>)
    ensures InBounds(r, |rows|)
  {
    OrderOf(rows, |rows|)
  }

  // ---- the soak ----------------------------------------------------------------------

  predicate IsX86Soak(r: Row) { r.kind == Soak && r.arch != Some(Arm64) }

  predicate IsArmSoak(r: Row) { r.kind == Soak && r.arch == Some(Arm64) }

  function X86Soaks(rows: seq<Row>): (r: seq<Row>)
  {
    if rows == [] then []
    else
      var rest := X86Soaks(rows[..|rows| - 1]);
      if IsX86Soak(rows[|rows| - 1]) then rest + [rows[|rows| - 1]] else rest
  }

  function ArmSoaks(rows: seq<Row>): (r: seq<Row>)
  {
    if rows == [] then []
    else
      var rest := ArmSoaks(rows[..|rows| - 1]);
      if IsArmSoak(rows[|rows| - 1]) then rest + [rows[|rows| - 1]] else rest
  }

  function Duration(r: Row): nat { if r.duration.Some? then r.duration.value else 0 }

  predicate ReleaseLength(r: Row, required: nat) { Duration(r) >= required }

  /** The loop of `_pick_soak`: the first release-length row that stands, else the first
      release-length one. */
  function PickLong(g: Git, rows: seq<Row>, order: seq<nat>, required: nat, first: Option<nat>): (r: Option<nat>)
    requires InBounds(order, |rows|) && (first.Some? ==> first.value < |rows|)
    ensures r.Some? ==> r.value < |rows|
    decreases |order|
  {
    if order == [] then first
    else
      var i := order[0];
      if !ReleaseLength(rows[i], required) then PickLong(g, rows, order[1..], required, first)
      else if StandingOf(g, rows[i].tree) == Equivalent then Some(i)
      else PickLong(g, rows, order[1..], required, if first.Some? then first else Some(i))
  }

  /** `_pick_soak` */
  function Pick(g: Git, rows: seq<Row>, required: nat): (i: nat)
    requires rows != []
    ensures i < |rows|
  {
    var long := PickLong(g, rows, ByDate(rows), required, None);
    if long.Some? then long.value
    else
      OrderComplete(rows, |rows|, 0);
      ByDate(rows)[0]
  }

  lemma {:induction false} OrderComplete(rows: seq<Row>, n: nat, j: nat)
    requires j < n <= |rows|
    ensures j in OrderOf(rows, n)
  {
    InsertMembers(rows, n - 1, OrderOf(rows, n - 1), j);
    if j < n - 1 { OrderComplete(rows, n - 1, j); }
  }

  lemma {:induction false} InsertMembers(rows: seq<Row>, i: nat, order: seq<nat>, j: nat)
    requires i < |rows| && InBounds(order, |rows|)
    ensures j in InsertByDate(rows, i, order) <==> j == i || j in order
  {
    if order != [] && !Newer(rows, i, order[0]) { InsertMembers(rows, i, order[1..], j); }
  }

  datatype Reason =
    | NoSoak | SoakUnresolved(tree: string) | SoakSuperseded(id: string, n: nat)
    | SoakFailed(id: string) | SoakWaived(id: string)
    | NewerUnresolved(tree: string) | NewerFailed(id: string)
    | TooShort(id: string) | MissingLegs(id: string)
    | CorpusUnresolved(tree: string) | NoCorpus | NoBaseline(id: string) | NoCounts(id: string)
    | CorpusFailed(id: string) | CorpusWaived(id: string)
    | WrongReplayPaths(id: string) | WrongFiles(id: string) | NothingReplayed(id: string)
    | ParseFailures(id: string) | InvariantFailures(id: string) | ReplayFailures(id: string)

  function When(b: bool, r: Reason): seq<Reason> { if b then [r] else [] }

  /** `_raw_verdict_reason` */
  function SoakVerdict(r: Row): seq<Reason> {
    match DispositionOf(r)
    case Pass => []
    case Waived => [SoakWaived(r.id)]
    case Fail => [SoakFailed(r.id)]
  }

  function CorpusVerdict(r: Row): seq<Reason> {
    match DispositionOf(r)
    case Pass => []
    case Waived => [CorpusWaived(r.id)]
    case Fail => [CorpusFailed(r.id)]
  }

  /** The row the chosen entry came from, found by its id. */
  function FirstWithId(rows: seq<Row>, id: string): (i: nat)
    requires exists r :: r in rows && r.id == id
    ensures i < |rows| && rows[i].id == id && forall j | 0 <= j < i :: rows[j].id != id
  {
    if rows[0].id == id then 0
    else
      var r :| r in rows && r.id == id;
      assert r in rows[1..];
      1 + FirstWithId(rows[1..], id)
  }

  /** What one row says against a chosen one: a newer run that did not pass counts unless its
      tree is known to differ. */
  function NegativeReason(g: Git, rows: seq<Row>, i: nat, chosen: nat): (r: seq<Reason>)
    requires i < |rows| && chosen < |rows|
  {
    if DispositionOf(rows[i]) == Pass || !Newer(rows, i, chosen) then []
    else
      match StandingOf(g, rows[i].tree)
      case Unresolved => [NewerUnresolved(rows[i].tree)]
      case Equivalent => [NewerFailed(rows[i].id)]
      case Superseded => []
  }

  function Negative(g: Git, rows: seq<Row>, order: seq<nat>, chosen: nat): (r: seq<Reason>)
    requires InBounds(order, |rows|) && chosen < |rows|
  {
    if order == [] then []
    else
      NegativeReason(g, rows, order[0], chosen) + Negative(g, rows, order[1..], chosen)
  }

  function LengthAndLegs(r: Row, required: nat): seq<Reason> {
    if Duration(r) < required then [TooShort(r.id)]
    else if (if r.legs.Some? then r.legs.value else {}) != RELEASE_SOAK_LEGS then [MissingLegs(r.id)]
    else []
  }

  // ---- the corpus --------------------------------------------------------------------

  /** `_newest` over the equivalent corpus rows among the first `n`. */
  function NewestCorpus(g: Git, rows: seq<Row>, n: nat): (r: Option<nat>)
    requires n <= |rows|
    ensures r.Some? ==> r.value < n
  {
    if n == 0 then None
    else
      var best := NewestCorpus(g, rows, n - 1);
      var r := rows[n - 1];
      if r.kind != Corpus || StandingOf(g, r.tree) != Equivalent then best
      else if best.None? || r.date >= rows[best.value].date then Some(n - 1)
      else best
  }

  /** The unresolvable rows that could have been the newest one, and would have failed. */
  function UnresolvedCorpus(g: Git, rows: seq<Row>, n: nat, c: Option<nat>): (r: seq<Reason>)
    requires n <= |rows| && (c.Some? ==> c.value < |rows|)
  {
    if n == 0 then []
    else
      var i := n - 1;
      UnresolvedCorpus(g, rows, i, c) + When(Hidden(g, rows, i, c), CorpusUnresolved(rows[i].tree))
  }

  /** A row that hides what it would have said: not a pass, its tree unresolvable, newer. */
  predicate Hidden(g: Git, rows: seq<Row>, i: nat, c: Option<nat>)
    requires i < |rows| && (c.Some? ==> c.value < |rows|)
  {
    rows[i].kind == Corpus && StandingOf(g, rows[i].tree) == Unresolved && DispositionOf(rows[i]) != Pass &&
    (c.None? || Newer(rows, i, c.value))
  }

  function CountReasons(r: Row, k: Counts, expected: nat): seq<Reason> {
    When(k.replayPaths != REPLAY_PATHS, WrongReplayPaths(r.id)) +
    When(k.files != expected, WrongFiles(r.id)) +
    When(k.replayFiles == 0, NothingReplayed(r.id)) +
    When(k.parseFailures != 0, ParseFailures(r.id)) +
    When(k.invariantFailures != 0, InvariantFailures(r.id)) +
    When(k.replayFailed != 0, ReplayFailures(r.id))
  }

  function CorpusRowReasons(r: Row, expected: nat): seq<Reason> {
    When(r.baseline.None? || r.baseline.value == "", NoBaseline(r.id)) +
    When(r.counts.None?, NoCounts(r.id)) +
    CorpusVerdict(r) +
    (if r.counts.Some? then CountReasons(r, r.counts.value, expected) else [])
  }

  function CorpusReasons(g: Git, rows: seq<Row>, expected: nat): seq<Reason> {
    var c := NewestCorpus(g, rows, |rows|);
    UnresolvedCorpus(g, rows, |rows|, c) +
    (if c.None? then [NoCorpus] else CorpusRowReasons(rows[c.value], expected))
  }

  // ---- the gate ----------------------------------------------------------------------

  function SoakReasons(g: Git, soaks: seq<Row>, required: nat): seq<Reason>
    requires soaks != []
  {
    var e := Pick(g, soaks, required);
    var r := soaks[e];
    assert r in soaks;
    var n := match Changed(g, r.tree) case None => 0 case Some(paths) => |paths|;
    When(n > 0, SoakSuperseded(r.id, n)) + SoakVerdict(r) +
    Negative(g, soaks, ByDate(soaks), FirstWithId(soaks, r.id)) + LengthAndLegs(r, required)
  }

  /** Every reason the gate finds, in its order. */
  function Reasons(g: Git, archives: seq<Row>, required: nat, expected: nat): (r: seq<Reason>)
  {
    var soaks := X86Soaks(archives);
    if soaks == [] then [NoSoak]
    else
      var tree := soaks[Pick(g, soaks, required)].tree;
      if StandingOf(g, tree) == Unresolved then [SoakUnresolved(tree)]
      else SoakReasons(g, soaks, required) + CorpusReasons(g, archives, expected)
  }

  /** The arm64 soak recorded beside the release soak. */
  function FirstStanding(g: Git, rows: seq<Row>, order: seq<nat>): (r: Option<Row>)
    requires InBounds(order, |rows|)
  {
    if order == [] then None
    else
      if StandingOf(g, rows[order[0]].tree) == Equivalent then Some(rows[order[0]])
      else FirstStanding(g, rows, order[1..])
  }

  datatype Gate = Gate(releaseMode: bool, soak: Option<Row>, corpus: Option<Row>, disposition: Disposition,
                       reasons: seq<Reason>, armSoak: Option<Row>)

  function Worse(a: Disposition, b: Disposition): Disposition {
    if a == Fail || b == Fail then Fail else if a == Waived || b == Waived then Waived else Pass
  }

  function EntryDisposition(r: Option<Row>): Disposition { if r.Some? then DispositionOf(r.value) else Fail }

  /** `release_vm`, recomputing every tree difference it asks for. */
  function GateOf(g: Git, archives: seq<Row>, release: bool, required: nat, expected: nat): Gate {
    var soaks := X86Soaks(archives);
    var soak := if soaks == [] then None else Some(soaks[Pick(g, soaks, required)]);
    var c := if soak.None? || StandingOf(g, soak.value.tree) == Unresolved then None
             else NewestCorpus(g, archives, |archives|);
    var corpus := if c.None? then None else Some(archives[c.value]);
    Gate(release, soak, corpus, Worse(EntryDisposition(soak), EntryDisposition(corpus)),
         if release then Reasons(g, archives, required, expected) else [],
         if release then FirstStanding(g, ArmSoaks(archives), ByDate(ArmSoaks(archives))) else None)
  }
}
