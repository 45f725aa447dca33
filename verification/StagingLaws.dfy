/** What a build leaves in the staged tree, and why a second build writes nothing. */
module StagingLaws {
  import opened Bytes
  import opened SourceFixups
  import opened Staging

  // ---- the walk ----------------------------------------------------------------------

  /** Everything walked lies below `rel`, under one of the directory's names. */
  lemma {:induction false} ListingBelow(skip: set<Path>, rel: Path, dir: Dir, i: nat)
    requires i < |Listing(skip, rel, dir)|
    ensures var p := Listing(skip, rel, dir)[i].0;
            |p| > |rel| && p[..|rel|] == rel && p[|rel|] in Names(dir)
    decreases dir
  {
    var first := if rel + [dir.name] in skip then []
                 else if dir.node.File? then [(rel + [dir.name], dir.node.bytes)]
                 else Listing(skip, rel + [dir.name], dir.node.dir);
    assert Listing(skip, rel, dir) == first + Listing(skip, rel, dir.rest);
    if i >= |first| {
      ListingBelow(skip, rel, dir.rest, i - |first|);
    } else if dir.node.Folder? {
      ListingBelow(skip, rel + [dir.name], dir.node.dir, i);
      var p := first[i].0;
      assert p[..|rel|] == p[..|rel| + 1][..|rel|] == rel;
      assert p[|rel|] == p[..|rel| + 1][|rel|];
    }
  }

  lemma {:induction false} FileAtName(dir: Dir, p: Path)
    requires FileAt(dir, p).Some?
    ensures p != [] && p[0] in Names(dir)
    decreases dir
  {
    if dir.name != p[0] { FileAtName(dir.rest, p); }
  }

  lemma BlockedStep(skip: set<Path>, rel: Path, p: Path)
    requires p != []
    ensures Blocked(skip, rel, p) <==> rel + [p[0]] in skip || Blocked(skip, rel + [p[0]], p[1..])
  {
    assert p[..1] == [p[0]];
    forall k | 1 < k <= |p| ensures rel + p[..k] == rel + [p[0]] + p[1..][..k - 1] {}
    if Blocked(skip, rel + [p[0]], p[1..]) {
      var k :| 1 <= k <= |p| - 1 && rel + [p[0]] + p[1..][..k] in skip;
      assert rel + p[..k + 1] == rel + [p[0]] + p[1..][..k];
    }
  }

  lemma FileListed(skip: set<Path>, rel: Path, dir: Dir, p: Path, bytes: Text)
    requires dir.Entry? && dir.node.File? && p != [] && p[0] == dir.name
    ensures (rel + p, bytes) in First(skip, rel, dir) <==>
            rel + [dir.name] !in skip && |p| == 1 && bytes == dir.node.bytes
  {
    assert |p| > 1 ==> |rel + p| > |rel + [dir.name]|;
    assert |p| == 1 ==> p == [dir.name];
  }

  /** The walk lists a path exactly when a file is there and nothing on the way is skipped. */
  lemma {:induction false} ListingExact(skip: set<Path>, rel: Path, dir: Dir, p: Path, bytes: Text)
    requires Sound(dir)
    ensures (rel + p, bytes) in Listing(skip, rel, dir) <==>
            FileAt(dir, p) == Some(bytes) && !Blocked(skip, rel, p)
    decreases dir, 1
  {
    if p == [] {
      NotListed(skip, rel, dir, bytes);
    } else if dir.Entry? {
      ListingFirst(skip, rel, dir, p, bytes);
      if dir.name == p[0] {
        ListingHere(skip, rel, dir, p, bytes);
      } else {
        ListingExact(skip, rel, dir.rest, p, bytes);
      }
    }
  }

  /** A directory is not a file of its own listing. */
  lemma NotListed(skip: set<Path>, rel: Path, dir: Dir, bytes: Text)
    ensures (rel + [], bytes) !in Listing(skip, rel, dir)
  {
    var all := Listing(skip, rel, dir);
    if (rel + [], bytes) in all {
      var i :| 0 <= i < |all| && all[i] == (rel + [], bytes);
      ListingBelow(skip, rel, dir, i);
    }
  }

  /** Under the first entry's own name only that entry is listed. */
  lemma {:induction false} ListingHere(skip: set<Path>, rel: Path, dir: Dir, p: Path, bytes: Text)
    requires Sound(dir) && dir.Entry? && p != [] && dir.name == p[0]
    ensures (rel + p, bytes) in Listing(skip, rel, dir) <==>
            FileAt(dir, p) == Some(bytes) && !Blocked(skip, rel, p)
    decreases dir, 0
  {
    ListingFirst(skip, rel, dir, p, bytes);
    NotInRest(skip, rel, dir, p, bytes);
    BlockedStep(skip, rel, p);
    if dir.node.Folder? {
      ListingExact(skip, rel + [dir.name], dir.node.dir, p[1..], bytes);
      assert rel + [dir.name] + p[1..] == rel + p;
    } else {
      FileListed(skip, rel, dir, p, bytes);
    }
  }

  /** The part of the walk that comes from the first entry. */
  ghost function First(skip: set<Path>, rel: Path, dir: Dir): seq<(Path, Text)>
    requires dir.Entry?
  {
    if rel + [dir.name] in skip then []
    else if dir.node.File? then [(rel + [dir.name], dir.node.bytes)]
    else Listing(skip, rel + [dir.name], dir.node.dir)
  }

  lemma ListingFirst(skip: set<Path>, rel: Path, dir: Dir, p: Path, bytes: Text)
    requires dir.Entry? && p != []
    ensures (rel + p, bytes) in Listing(skip, rel, dir) <==>
            (rel + p, bytes) in First(skip, rel, dir) || (rel + p, bytes) in Listing(skip, rel, dir.rest)
    ensures (rel + p, bytes) in First(skip, rel, dir) ==> p[0] == dir.name
  {
    var first := First(skip, rel, dir);
    assert Listing(skip, rel, dir) == first + Listing(skip, rel, dir.rest);
    if (rel + p, bytes) in first {
      assert (rel + p)[|rel|] == p[0];
      if dir.node.Folder? {
        var i :| 0 <= i < |first| && first[i] == (rel + p, bytes);
        ListingBelow(skip, rel + [dir.name], dir.node.dir, i);
        assert (rel + p)[..|rel| + 1][|rel|] == p[0];
      }
    }
  }

  lemma NotInRest(skip: set<Path>, rel: Path, dir: Dir, p: Path, bytes: Text)
    requires Sound(dir) && dir.Entry? && p != [] && p[0] == dir.name
    ensures (rel + p, bytes) !in Listing(skip, rel, dir.rest)
  {
    var rest := Listing(skip, rel, dir.rest);
    assert (rel + p)[|rel|] == p[0];
    if (rel + p, bytes) in rest {
      var i :| 0 <= i < |rest| && rest[i] == (rel + p, bytes);
      ListingBelow(skip, rel, dir.rest, i);
    }
  }

  // ---- writing lists -----------------------------------------------------------------

  ghost predicate Lists(list: seq<(Path, Text)>, p: Path) { exists b :: (p, b) in list }

  ghost predicate Consistent(list: seq<(Path, Text)>) {
    forall p, a, b | (p, a) in list && (p, b) in list :: a == b
  }

  lemma {:induction false} WriteListOther(d: Disk, list: seq<(Path, Text)>, p: Path)
    requires !Lists(list, p)
    ensures p in WriteList(d, list).files <==> p in d.files
    ensures p in d.files ==> WriteList(d, list).files[p] == d.files[p]
    decreases |list|
  {
    if list != [] {
      assert list[0] in list && (list[0].0, list[0].1) == list[0];
      forall b ensures (p, b) !in list[1..] { assert (p, b) in list[1..] ==> (p, b) in list; }
      WriteListOther(Write(d, list[0].0, list[0].1), list[1..], p);
    }
  }

  lemma {:induction false} WriteListListed(d: Disk, list: seq<(Path, Text)>, p: Path, b: Text)
    requires Consistent(list) && (p, b) in list
    ensures p in WriteList(d, list).files && WriteList(d, list).files[p] == b
    decreases |list|
  {
    var d1, rest := Write(d, list[0].0, list[0].1), list[1..];
    assert (list[0].0, list[0].1) in list;
    if (p, b) in rest {
      WriteListListed(d1, rest, p, b);
    } else {
      assert list[0] == (p, b);
      forall c ensures (p, c) !in rest { assert (p, c) in rest ==> (p, c) in list; }
      WriteListOther(d1, rest, p);
    }
  }

  /** Nothing is written when everything is already there. */
  lemma {:induction false} WriteListIdle(d: Disk, list: seq<(Path, Text)>)
    requires forall p, b | (p, b) in list :: p in d.files && d.files[p] == b
    ensures WriteList(d, list) == d
    decreases |list|
  {
    if list != [] {
      assert (list[0].0, list[0].1) in list;
      WriteListIdle(d, list[1..]);
    }
  }

  // ---- the build ---------------------------------------------------------------------

  lemma {:induction false} PatchesExact(vendor: Dir, table: seq<Fixup>, statusOk: (Path, Text) -> bool,
                                        files: seq<Path>,
                                        p: Path, t: Text)
    requires Usable(table) && Patches(vendor, table, statusOk, files).Ok?
    ensures (p, t) in Patches(vendor, table, statusOk, files).value <==>
            p in files && PatchedAt(vendor, table, statusOk, p) == Ok(t)
    decreases |files|
  {
    if files != [] {
      PatchesExact(vendor, table, statusOk, files[1..], p, t);
      assert p in files <==> p == files[0] || p in files[1..];
    }
  }

  lemma {:induction false} PatchesAll(vendor: Dir, table: seq<Fixup>, statusOk: (Path, Text) -> bool, files: seq<Path>,
                                      p: Path)
    requires Usable(table) && Patches(vendor, table, statusOk, files).Ok? && p in files
    ensures PatchedAt(vendor, table, statusOk, p).Ok?
    decreases |files|
  {
    if p != files[0] { PatchesAll(vendor, table, statusOk, files[1..], p); }
  }

  /** A vendored file that is staged as it is: no skipped path and no target on the way. */
  ghost predicate Staged(vendor: Dir, skip: set<Path>, table: seq<Fixup>, p: Path) {
    FileAt(vendor, p).Some? && !Blocked(SkipSet(skip, table), [], p)
  }

  lemma StagedIsNoTarget(vendor: Dir, skip: set<Path>, table: seq<Fixup>, p: Path)
    requires Staged(vendor, skip, table, p)
    ensures p !in Targets(table)
  {
    FileAtName(vendor, p);
    assert [] + p[..|p|] == p;
    assert !([] + p[..|p|] in SkipSet(skip, table));
  }

  /** The list of the copy, at any path. */
  lemma CopyList(vendor: Dir, skip: set<Path>, table: seq<Fixup>, p: Path, b: Text)
    requires Sound(vendor)
    ensures (p, b) in Listing(SkipSet(skip, table), [], vendor) <==>
            Staged(vendor, skip, table, p) && FileAt(vendor, p) == Some(b)
  {
    ListingExact(SkipSet(skip, table), [], vendor, p, b);
    assert [] + p == p;
  }

  /** After a build that does not panic, from any earlier content: each target holds the
      patched vendored text, each other vendored file that nothing skips its vendored bytes,
      and every other path what it held before. */
  lemma BuildExact(d: Disk, vendor: Dir, skip: set<Path>, table: seq<Fixup>, statusOk: (Path, Text) -> bool, p: Path)
    requires Usable(table) && Sound(vendor) && Build(d, vendor, skip, table, statusOk).Ok?
    ensures var r := Build(d, vendor, skip, table, statusOk).value.files;
            if p in Targets(table) then
              p in r && PatchedAt(vendor, table, statusOk, p) == Ok(r[p])
            else if Staged(vendor, skip, table, p) then
              p in r && FileAt(vendor, p) == Some(r[p])
            else
              (p in r <==> p in d.files) && (p in r ==> r[p] == d.files[p])
  {
    var copy := Listing(SkipSet(skip, table), [], vendor);
    var patched := Patches(vendor, table, statusOk, Targets(table)).value;
    var mid := WriteList(d, copy);
    CopyConsistent(vendor, skip, table);
    PatchesConsistent(vendor, table, statusOk);
    if p in Targets(table) {
      PatchesAll(vendor, table, statusOk, Targets(table), p);
      var t := PatchedAt(vendor, table, statusOk, p).value;
      PatchesExact(vendor, table, statusOk, Targets(table), p, t);
      WriteListListed(mid, patched, p, t);
    } else {
      forall t ensures (p, t) !in patched { PatchesExact(vendor, table, statusOk, Targets(table), p, t); }
      WriteListOther(mid, patched, p);
      forall b ensures (p, b) in copy <==> Staged(vendor, skip, table, p) && FileAt(vendor, p) == Some(b) {
        CopyList(vendor, skip, table, p, b);
      }
      if Staged(vendor, skip, table, p) {
        WriteListListed(d, copy, p, FileAt(vendor, p).value);
      } else {
        WriteListOther(d, copy, p);
      }
    }
  }

  lemma CopyConsistent(vendor: Dir, skip: set<Path>, table: seq<Fixup>)
    requires Sound(vendor)
    ensures Consistent(Listing(SkipSet(skip, table), [], vendor))
  {
    var copy := Listing(SkipSet(skip, table), [], vendor);
    forall p, a, b | (p, a) in copy && (p, b) in copy ensures a == b {
      CopyList(vendor, skip, table, p, a);
      CopyList(vendor, skip, table, p, b);
    }
  }

  lemma PatchesConsistent(vendor: Dir, table: seq<Fixup>, statusOk: (Path, Text) -> bool)
    requires Usable(table) && Patches(vendor, table, statusOk, Targets(table)).Ok?
    ensures Consistent(Patches(vendor, table, statusOk, Targets(table)).value)
  {
    var list := Patches(vendor, table, statusOk, Targets(table)).value;
    forall p, a, b | (p, a) in list && (p, b) in list ensures a == b {
      PatchesExact(vendor, table, statusOk, Targets(table), p, a);
      PatchesExact(vendor, table, statusOk, Targets(table), p, b);
    }
  }

  /** The same files, whatever order the directories list them in. */
  ghost predicate SameFiles(a: Dir, b: Dir) { forall p :: FileAt(a, p) == FileAt(b, p) }

  lemma {:induction false} PatchesAgree(a: Dir, b: Dir, table: seq<Fixup>, statusOk: (Path, Text) -> bool,
                                        files: seq<Path>)
    requires Usable(table) && SameFiles(a, b)
    ensures Patches(a, table, statusOk, files) == Patches(b, table, statusOk, files)
    decreases |files|
  {
    if files != [] {
      assert FileAt(a, files[0]) == FileAt(b, files[0]);
      PatchesAgree(a, b, table, statusOk, files[1..]);
    }
  }

  lemma {:induction false} DoneAgree(a: Dir, b: Dir, table: seq<Fixup>, statusOk: (Path, Text) -> bool,
                                     files: seq<Path>)
    requires Usable(table) && SameFiles(a, b)
    ensures PatchesDone(a, table, statusOk, files) == PatchesDone(b, table, statusOk, files)
    decreases |files|
  {
    if files != [] {
      assert FileAt(a, files[0]) == FileAt(b, files[0]);
      DoneAgree(a, b, table, statusOk, files[1..]);
    }
  }

  /** The copy leaves the same files, whatever the order. */
  lemma CopyIgnoresOrder(d: Disk, a: Dir, b: Dir, skip: set<Path>, table: seq<Fixup>)
    requires Sound(a) && Sound(b) && SameFiles(a, b)
    ensures WriteList(d, Listing(SkipSet(skip, table), [], a)).files == WriteList(d, Listing(SkipSet(skip, table), [], b)).files
  {
    var la, lb := Listing(SkipSet(skip, table), [], a), Listing(SkipSet(skip, table), [], b);
    var fa, fb := WriteList(d, la).files, WriteList(d, lb).files;
    CopyConsistent(a, skip, table);
    CopyConsistent(b, skip, table);
    forall p ensures (p in fa <==> p in fb) && (p in fa ==> fa[p] == fb[p]) {
      assert FileAt(a, p) == FileAt(b, p);
      forall t ensures (p, t) in la <==> (p, t) in lb {
        CopyList(a, skip, table, p, t);
        CopyList(b, skip, table, p, t);
      }
      if Lists(la, p) {
        var t :| (p, t) in la;
        WriteListListed(d, la, p, t);
        WriteListListed(d, lb, p, t);
      } else {
        WriteListOther(d, la, p);
        WriteListOther(d, lb, p);
      }
    }
  }

  lemma {:induction false} WriteListFiles(d: Disk, e: Disk, list: seq<(Path, Text)>)
    requires d.files == e.files
    ensures WriteList(d, list).files == WriteList(e, list).files
    decreases |list|
  {
    if list != [] {
      WriteListFiles(Write(d, list[0].0, list[0].1), Write(e, list[0].0, list[0].1), list[1..]);
    }
  }

  /** Neither the panic nor the files a build leaves, failed or not, depend on the order of any
      directory. */
  lemma BuildIgnoresOrder(d: Disk, a: Dir, b: Dir, skip: set<Path>, table: seq<Fixup>, statusOk: (Path, Text) -> bool)
    requires Usable(table) && Sound(a) && Sound(b) && SameFiles(a, b)
    ensures FailureOf(Build(d, b, skip, table, statusOk)) == FailureOf(Build(d, a, skip, table, statusOk))
    ensures Left(d, b, skip, table, statusOk).files == Left(d, a, skip, table, statusOk).files
  {
    PatchesAgree(a, b, table, statusOk, Targets(table));
    DoneAgree(a, b, table, statusOk, Targets(table));
    CopyIgnoresOrder(d, a, b, skip, table);
    WriteListFiles(WriteList(d, Listing(SkipSet(skip, table), [], a)), WriteList(d, Listing(SkipSet(skip, table), [], b)),
                   PatchesDone(a, table, statusOk, Targets(table)));
  }

  /** A second build over the first one's result writes no file at all, even when the
      directories are listed in another order. */
  lemma SecondBuildIsIdle(d: Disk, a: Dir, b: Dir, skip: set<Path>, table: seq<Fixup>, statusOk: (Path, Text) -> bool)
    requires Usable(table) && Sound(a) && Sound(b) && SameFiles(a, b) && Build(d, a, skip, table, statusOk).Ok?
    ensures var first := Build(d, a, skip, table, statusOk);
            Build(first.value, b, skip, table, statusOk) == first
  {
    var r := Build(d, a, skip, table, statusOk).value;
    PatchesAgree(a, b, table, statusOk, Targets(table));
    var copy := Listing(SkipSet(skip, table), [], b);
    var patched := Patches(b, table, statusOk, Targets(table)).value;
    forall p, t | (p, t) in copy ensures p in r.files && r.files[p] == t {
      CopyList(b, skip, table, p, t);
      assert FileAt(a, p) == FileAt(b, p);
      StagedIsNoTarget(b, skip, table, p);
      BuildExact(d, a, skip, table, statusOk, p);
    }
    WriteListIdle(r, copy);
    forall p, t | (p, t) in patched ensures p in r.files && r.files[p] == t {
      PatchesExact(a, table, statusOk, Targets(table), p, t);
      BuildExact(d, a, skip, table, statusOk, p);
    }
    WriteListIdle(r, patched);
  }
}
