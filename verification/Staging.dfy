/** Staging the vendored tree (`stage_vendored_source`) and writing the patched files over it
    (`apply_source_fixups`). The disk is a map from paths to bytes and a list of the writes
    made; writing what is already there adds none. */
module Staging {
  import opened Bytes
  import opened SourceFixups

  /** Path components below the root. */
  type Path = seq<string>

  datatype Node = File(bytes: Text) | Folder(dir: Dir)

  /** A directory's entries in the order `read_dir` gives them. */
  datatype Dir = Empty | Entry(name: string, node: Node, rest: Dir)

  function Names(dir: Dir): set<string> {
    match dir
    case Empty => {}
    case Entry(name, _, rest) => {name} + Names(rest)
  }

  /** No two entries of one directory share a name. */
  predicate Sound(dir: Dir) {
    match dir
    case Empty => true
    case Entry(name, node, rest) => name !in Names(rest) && (node.Folder? ==> Sound(node.dir)) && Sound(rest)
  }

  /** The vendored file at a path. */
  function FileAt(dir: Dir, p: Path): (r: Option<Text>)
  {
    if p == [] then None
    else
      match dir
      case Empty => None
      case Entry(name, node, rest) =>
        if name != p[0] then FileAt(rest, p)
        else if node.File? then (if |p| == 1 then Some(node.bytes) else None)
        else FileAt(node.dir, p[1..])
  }

  /** A component of `p` below `rel` is skipped: `p` or a directory above it. */
  ghost predicate Blocked(skip: set<Path>, rel: Path, p: Path) {
    exists k | 1 <= k <= |p| :: rel + p[..k] in skip
  }

  /** What the copy writes, in the order it walks. */
  function Listing(skip: set<Path>, rel: Path, dir: Dir): (r: seq<(Path, Text)>)
    decreases dir
  {
    match dir
    case Empty => []
    case Entry(name, node, rest) =>
      (if rel + [name] in skip then []
       else if node.File? then [(rel + [name], node.bytes)]
       else Listing(skip, rel + [name], node.dir))
      + Listing(skip, rel, rest)
  }

  /** The staged tree and the files written so far. */
  datatype Disk = Disk(files: map<Path, Text>, writes: seq<Path>)

  /** `write_if_changed` */
  function Write(d: Disk, p: Path, bytes: Text): Disk {
    if p in d.files && d.files[p] == bytes then d
    else Disk(d.files[p := bytes], d.writes + [p])
  }

  function WriteList(d: Disk, list: seq<(Path, Text)>): (r: Disk)
    decreases |list|
  {
    if list == [] then d else WriteList(Write(d, list[0].0, list[0].1), list[1..])
  }

  /** The files of the table, each once, in table order. */
  function Targets(table: seq<Fixup>): (r: seq<Path>)
  {
    if table == [] then []
    else
      var rest := Targets(table[..|table| - 1]);
      var f := table[|table| - 1].file;
      if f in rest then rest else rest + [f]
  }

  function FixupsOf(table: seq<Fixup>, file: Path): (r: seq<Fixup>)
    ensures forall f :: f in r <==> f in table && f.file == file
  {
    if table == [] then []
    else
      var rest := FixupsOf(table[1..], file);
      assert forall f :: f in table <==> f == table[0] || f in table[1..];
      if table[0].file == file then [table[0]] + rest else rest
  }

  /** The patched text of one target, from the pristine vendored one. */
  function PatchedAt(vendor: Dir, table: seq<Fixup>, statusOk: (Path, Text) -> bool, file: Path): (r: Outcome<Text>)
    requires Usable(table)
  {
    var source := FileAt(vendor, file);
    if source.None? then Failed(Missing(file))
    else Patched(source.value, file, FixupsOf(table, file), statusOk)
  }

  /** The patched files in order; a failure ends the build. */
  function Patches(vendor: Dir, table: seq<Fixup>, statusOk: (Path, Text) -> bool, files: seq<Path>)
    : (r: Outcome<seq<(Path, Text)>>)
    requires Usable(table)
    decreases |files|
  {
    if files == [] then Ok([])
    else
      match PatchedAt(vendor, table, statusOk, files[0])
      case Failed(p) => Failed(p)
      case Ok(t) =>
        match Patches(vendor, table, statusOk, files[1..])
        case Failed(p) => Failed(p)
        case Ok(rest) => Ok([(files[0], t)] + rest)
  }

  /** The files patched before the first that fails. */
  function PatchesDone(vendor: Dir, table: seq<Fixup>, statusOk: (Path, Text) -> bool, files: seq<Path>)
    : (r: seq<(Path, Text)>)
    requires Usable(table)
    ensures var all := Patches(vendor, table, statusOk, files); all.Ok? ==> r == all.value
    decreases |files|
  {
    if files == [] then []
    else
      match PatchedAt(vendor, table, statusOk, files[0])
      case Failed(_) => []
      case Ok(t) => [(files[0], t)] + PatchesDone(vendor, table, statusOk, files[1..])
  }

  function FailureOf<T>(r: Outcome<T>): (p: Option<Panic>)
  {
    match r case Failed(p) => Some(p) case Ok(_) => None
  }

  function SkipSet(skip: set<Path>, table: seq<Fixup>): set<Path> { skip + set f | f in Targets(table) }

  /** The staged tree after a build, whatever it held before. */
  function Build(d: Disk, vendor: Dir, skip: set<Path>, table: seq<Fixup>, statusOk: (Path, Text) -> bool)
    : (r: Outcome<Disk>)
    requires Usable(table)
  {
    match Patches(vendor, table, statusOk, Targets(table))
    case Failed(p) => Failed(p)
    case Ok(patched) => Ok(WriteList(WriteList(d, Listing(SkipSet(skip, table), [], vendor)), patched))
  }

  /** What a build leaves, failed or not: the copy, and the targets before the first failure. */
  function Left(d: Disk, vendor: Dir, skip: set<Path>, table: seq<Fixup>, statusOk: (Path, Text) -> bool): (r: Disk)
    requires Usable(table)
  {
    WriteList(WriteList(d, Listing(SkipSet(skip, table), [], vendor)), PatchesDone(vendor, table, statusOk, Targets(table)))
  }

  // ---- the build script --------------------------------------------------------------

  class Stage {
    var files: map<Path, Text>
    var writes: seq<Path>

    ghost function View(): Disk
      reads this
    {
      Disk(files, writes)
    }

    constructor (files: map<Path, Text>)
      ensures View() == Disk(files, [])
    {
      this.files, writes := files, [];
    }

    method WriteIfChanged(p: Path, bytes: Text)
      modifies this
      ensures View() == Write(old(View()), p, bytes)
    {
      if p in files && files[p] == bytes { return; }
      files := files[p := bytes];
      writes := writes + [p];
    }

    /** `copy_dir`, one directory level: files are written, folders entered. */
    method CopyDir(skip: set<Path>, rel: Path, dir: Dir)
      modifies this
      ensures View() == WriteList(old(View()), Listing(skip, rel, dir))
      decreases dir
    {
      var rest := dir;
      while rest.Entry?
        invariant rest == dir || rest < dir
        invariant WriteList(View(), Listing(skip, rel, rest)) == WriteList(old(View()), Listing(skip, rel, dir))
        decreases rest
      {
        var path := rel + [rest.name];
        ghost var tail := Listing(skip, rel, rest.rest);
        ghost var here := View();
        if path in skip {
          assert Listing(skip, rel, rest) == tail;
        } else if rest.node.File? {
          WriteListConcat(here, [(path, rest.node.bytes)], tail);
          WriteListOne(here, path, rest.node.bytes);
          WriteIfChanged(path, rest.node.bytes);
        } else {
          WriteListConcat(here, Listing(skip, path, rest.node.dir), tail);
          CopyDir(skip, path, rest.node.dir);
        }
        rest := rest.rest;
      }
    }

    /** `apply_source_fixups`: stops at the first file that fails. */
    method ApplyFixups(vendor: Dir, table: seq<Fixup>, statusOk: (Path, Text) -> bool) returns (panic: Option<Panic>)
      requires Usable(table)
      modifies this
      ensures panic == FailureOf(Patches(vendor, table, statusOk, Targets(table)))
      ensures View() == WriteList(old(View()), PatchesDone(vendor, table, statusOk, Targets(table)))
    {
      var targets := TargetList(table);
      for i := 0 to |targets|
        invariant FailureOf(Patches(vendor, table, statusOk, targets[i..])) == FailureOf(Patches(vendor, table, statusOk, targets))
        invariant WriteList(View(), PatchesDone(vendor, table, statusOk, targets[i..]))
               == WriteList(old(View()), PatchesDone(vendor, table, statusOk, targets))
      {
        var file := targets[i];
        PatchesStep(vendor, table, statusOk, targets, i);
        var source := FileAt(vendor, file);
        if source.None? { return Some(Missing(file)); }
        var text := PatchFile(source.value, file, FixupsOf(table, file), statusOk);
        if text.Failed? { return Some(text.panic); }
        WriteIfChanged(file, text.value);
      }
      panic := None;
    }

    /** The build: the vendored tree is staged, then the fixups are written over it. A build
        that fails has staged the tree and patched the files before the one that fails. */
    method Run(vendor: Dir, skip: set<Path>, table: seq<Fixup>,
               statusOk: (Path, Text) -> bool) returns (panic: Option<Panic>)
      requires Usable(table)
      modifies this
      ensures panic == FailureOf(Build(old(View()), vendor, skip, table, statusOk))
      ensures panic.None? ==> Build(old(View()), vendor, skip, table, statusOk) == Ok(View())
      ensures View() == Left(old(View()), vendor, skip, table, statusOk)
    {
      BuildIs(View(), vendor, skip, table, statusOk);
      hide Build, WriteList, Listing, Patches, PatchesDone, Targets, SkipSet;
      CopyDir(SkipSet(skip, table), [], vendor);
      panic := ApplyFixups(vendor, table, statusOk);
    }
  }

  lemma BuildIs(d: Disk, vendor: Dir, skip: set<Path>, table: seq<Fixup>, statusOk: (Path, Text) -> bool)
    requires Usable(table)
    ensures var built := Build(d, vendor, skip, table, statusOk);
            && FailureOf(built) == FailureOf(Patches(vendor, table, statusOk, Targets(table)))
            && (built.Ok? ==> built.value == Left(d, vendor, skip, table, statusOk))
  {
  }

  lemma PatchesStep(vendor: Dir, table: seq<Fixup>, statusOk: (Path, Text) -> bool, files: seq<Path>, i: nat)
    requires Usable(table) && i < |files|
    ensures var here := PatchedAt(vendor, table, statusOk, files[i]);
            && FailureOf(Patches(vendor, table, statusOk, files[i..]))
               == (if here.Failed? then Some(here.panic) else FailureOf(Patches(vendor, table, statusOk, files[i + 1..])))
            && forall d ::
                 WriteList(d, PatchesDone(vendor, table, statusOk, files[i..]))
                 == if here.Failed? then d
                    else WriteList(Write(d, files[i], here.value), PatchesDone(vendor, table, statusOk, files[i + 1..]))
  {
    hide PatchedAt, Write;
    assert files[i..][0] == files[i] && files[i..][1..] == files[i + 1..];
    var here := PatchedAt(vendor, table, statusOk, files[i]);
    if here.Ok? {
      var rest := PatchesDone(vendor, table, statusOk, files[i + 1..]);
      assert ([(files[i], here.value)] + rest)[1..] == rest;
    }
  }

  method TargetList(table: seq<Fixup>) returns (files: seq<Path>)
    ensures files == Targets(table)
  {
    files := [];
    for i := 0 to |table|
      invariant files == Targets(table[..i])
    {
      assert table[..i + 1][..i] == table[..i];
      if table[i].file !in files { files := files + [table[i].file]; }
    }
    assert table[..|table|] == table;
  }

  lemma {:induction false} WriteListConcat(d: Disk, a: seq<(Path, Text)>, b: seq<(Path, Text)>)
    ensures WriteList(d, a + b) == WriteList(WriteList(d, a), b)
    decreases |a|
  {
    if a == [] {
      assert a + b == b;
    } else {
      assert (a + b)[1..] == a[1..] + b && (a + b)[0] == a[0];
      WriteListConcat(Write(d, a[0].0, a[0].1), a[1..], b);
    }
  }

  lemma WriteListOne(d: Disk, p: Path, bytes: Text)
    ensures WriteList(d, [(p, bytes)]) == Write(d, p, bytes)
  {
    assert [(p, bytes)][1..] == [];
  }
}
