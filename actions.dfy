/** The action executors (`src/rotire/actions.rs`): delete, archive and dry
    run. Each walks the files it is given in order and counts every one of
    them, size first and then the file, before it knows whether the
    per-file operation will succeed. The executor of `src/rotire/mod.rs`
    (`execute_action`) runs the same two loops and is modelled by them.

    Every executor is proved against a specification function of the
    state before the call; the lemmas further down state what those
    functions promise. */
module Actions {
  import opened Wrappers
  import opened Paths
  import opened Model
  import opened FileSystem
  import Text

  /** `ActionType` (and `RotireAction` of `mod.rs`, which has the same two cases). */
  datatype ActionType = Delete | Archive

  /** `Action`: what to do and whether only to pretend. `Action::new` is the
      constructor `Action(actionType, dryRun)`, which stores both unchanged. */
  datatype Action = Action(actionType: ActionType, dryRun: bool)

  /** `Action::default`. */
  function Default(): (a: Action)
    ensures a.actionType == Archive && !a.dryRun
  {
    Action(Archive, false)
  }

  // ---------------------------------------------------------------------
  // Specification functions

  /** Every file has a file name (the archive executor unwraps it). */
  predicate AllNamed(files: seq<RotireFile>) {
    forall i :: 0 <= i < |files| ==> files[i].path.FileName().Some?
  }

  /** `files[i].path` for some `i`. */
  predicate Mentions(files: seq<RotireFile>, p: Path) {
    exists i :: 0 <= i < |files| && files[i].path == p
  }

  /** The paths a delete run removes: each file's path unless its removal fails. */
  function Doomed(files: seq<RotireFile>, faults: Faults): set<Path>
  {
    if files == [] then {}
    else
      var last := files[|files| - 1];
      Doomed(files[..|files| - 1], faults) + (if last.path in faults.removeFails then {} else {last.path})
  }

  /** `rotire-archive-<ms>.tar.gz`. */
  function ArchiveName(nowMs: nat): string
  {
    "rotire-archive-" + Text.NatDecimal(nowMs) + ".tar.gz"
  }

  function ArchivePath(directory: Path, nowMs: nat): (p: Path)
    ensures p.Parent() == directory
    ensures p.FileName() == Some(Utf8(ArchiveName(nowMs)))
  {
    directory.Join(Utf8(ArchiveName(nowMs)))
  }

  /** One iteration of the archive loop on file `f`: open it, append it
      under its base name to the archive at `ap`, and remove it only after
      the append succeeded. */
  function ArchiveOne(st: FsState, ap: Path, f: RotireFile, faults: Faults): (r: FsState)
    requires ap in st.archives && f.path.FileName().Some?
  {
    if f.path !in st.files || f.path in faults.openFails then st
    else if f.path in faults.appendFails then st
    else
      var archives := st.archives[ap := TarArchive(st.archives[ap].members + [f.path.FileName().value], false)];
      if f.path in faults.removeFails then FsState(st.files, archives)
      else FsState(st.files - {f.path}, archives)
  }

  /** The archive loop over `files`, one iteration per file, in order. */
  function ArchiveLoop(st: FsState, ap: Path, files: seq<RotireFile>, faults: Faults): (r: FsState)
    requires ap in st.archives && AllNamed(files)
    ensures r.archives.Keys == st.archives.Keys
    ensures forall q :: q in st.archives && q != ap ==> r.archives[q] == st.archives[q]
    ensures !st.archives[ap].finished ==> !r.archives[ap].finished
  {
    if files == [] then st
    else ArchiveOne(ArchiveLoop(st, ap, files[..|files| - 1], faults), ap, files[|files| - 1], faults)
  }

  /** One more iteration of the archive loop. */
  lemma ArchiveLoopStep(st: FsState, ap: Path, files: seq<RotireFile>, i: nat, faults: Faults)
    requires ap in st.archives && AllNamed(files) && i < |files|
    ensures AllNamed(files[..i]) && AllNamed(files[..i + 1])
    ensures ArchiveLoop(st, ap, files[..i + 1], faults)
         == ArchiveOne(ArchiveLoop(st, ap, files[..i], faults), ap, files[i], faults)
  {
    assert files[..i + 1][..i] == files[..i];
  }

  /** The state right after the archive file has been created. */
  function Created(st: FsState, ap: Path, faults: Faults): (r: FsState)
    ensures ap in r.archives
  {
    FsState(st.files[ap := Metadata(0, Some(faults.archiveModified))], st.archives[ap := TarArchive([], false)])
  }

  /** The whole archive executor: create, loop, finish. */
  function ArchiveEffect(st: FsState, files: seq<RotireFile>, directory: Path, nowMs: nat, faults: Faults)
    : (FsState, Result<Counts, RotireError>)
    requires AllNamed(files)
  {
    if faults.createFails then (st, Err(CreateFailed))
    else
      var ap := ArchivePath(directory, nowMs);
      var looped := ArchiveLoop(Created(st, ap, faults), ap, files, faults);
      if faults.finishFails then (looped, Err(FinishFailed))
      else (FsState(looped.files, looped.archives[ap := TarArchive(looped.archives[ap].members, true)]),
            Ok(Totals(files)))
  }

  /** The whole delete executor. */
  function DeleteEffect(st: FsState, files: seq<RotireFile>, faults: Faults)
    : (FsState, Result<Counts, RotireError>)
  {
    (FsState(st.files - Doomed(files, faults), st.archives), Ok(Totals(files)))
  }

  /** `Action::execute`: a dry run whenever `dryRun` is set, otherwise the
      real action of the given kind. */
  function ExecuteEffect(action: Action, st: FsState, files: seq<RotireFile>, directory: Path,
                         nowMs: nat, faults: Faults): (FsState, Result<Counts, RotireError>)
    requires action == Action(Archive, false) ==> AllNamed(files)
  {
    if action.dryRun then (st, Ok(Totals(files)))
    else match action.actionType
      case Delete => DeleteEffect(st, files, faults)
      case Archive => ArchiveEffect(st, files, directory, nowMs, faults)
  }

  // ---------------------------------------------------------------------
  // Executors

  /** The counting every executor does first for each file: one more file
      and its size, both wrapping. */
  method CountFile(result: RotireResult, files: seq<RotireFile>, i: nat)
    requires i < |files| && result.Snapshot() == Totals(files[..i])
    modifies result
    ensures result.Snapshot() == Totals(files[..i + 1])
  {
    result.IncAffectedFilesSize(files[i].metadata.size);
    result.IncAffectedFiles();
    TotalsStep(files, i);
  }

  /** `dry_run_action`: counts every file and touches nothing. */
  method DryRunAction(files: seq<RotireFile>) returns (r: Result<RotireResult, RotireError>)
    ensures r.Ok? && r.value.Snapshot() == Totals(files)
  {
    var result := new RotireResult();
    for i := 0 to |files|
      invariant result.Snapshot() == Totals(files[..i])
    {
      CountFile(result, files, i);
    }
    assert files[..|files|] == files;
    r := Ok(result);
  }

  /** `delete_files_action`: counts every file, then tries to remove it; a
      failed removal is only logged. */
  method DeleteFilesAction(files: seq<RotireFile>, fs: FileSystem, faults: Faults)
    returns (r: Result<RotireResult, RotireError>)
    modifies fs
    ensures r.Ok?
    ensures (fs.State(), Report(r)) == DeleteEffect(old(fs.State()), files, faults)
  {
    var result := new RotireResult();
    for i := 0 to |files|
      invariant result.Snapshot() == Totals(files[..i])
      invariant fs.files == old(fs.files) - Doomed(files[..i], faults)
      invariant fs.archives == old(fs.archives)
    {
      CountFile(result, files, i);
      var _ := fs.RemoveFile(files[i].path, faults);
      assert files[..i + 1][..i] == files[..i];
    }
    assert files[..|files|] == files;
    r := Ok(result);
  }

  /** The body of the archive loop for one file: open it, append it under
      its base name, and remove it only if the append succeeded. */
  method ArchiveFile(ap: Path, f: RotireFile, fs: FileSystem, faults: Faults)
    requires ap in fs.archives && f.path.FileName().Some?
    modifies fs
    ensures fs.State() == ArchiveOne(old(fs.State()), ap, f, faults)
  {
    var isOpen := fs.Open(f.path, faults);
    if isOpen {
      var appended := fs.AppendFile(ap, f.path.FileName().value, f.path, faults);
      if appended {
        var _ := fs.RemoveFile(f.path, faults);
      }
    }
  }

  /** `archive_files_action`: creates `rotire-archive-<ms>.tar.gz` in the
      directory, then for every file counts it, opens it, appends it under
      its base name and removes it only if the append succeeded; finally
      finishes the archive. */
  method ArchiveFilesAction(files: seq<RotireFile>, directory: Path, nowMs: nat, fs: FileSystem, faults: Faults)
    returns (r: Result<RotireResult, RotireError>)
    requires AllNamed(files)
    modifies fs
    ensures (fs.State(), Report(r)) == ArchiveEffect(old(fs.State()), files, directory, nowMs, faults)
  {
    var result := new RotireResult();
    var ap := ArchivePath(directory, nowMs);
    var created := fs.CreateArchive(ap, faults);
    if !created {
      return Err(CreateFailed);
    }
    ghost var start := fs.State();
    assert start == Created(old(fs.State()), ap, faults);
    for i := 0 to |files|
      invariant fs.State() == ArchiveLoop(start, ap, files[..i], faults)
      invariant result.Snapshot() == Totals(files[..i])
    {
      CountFile(result, files, i);
      ArchiveFile(ap, files[i], fs, faults);
      ArchiveLoopStep(start, ap, files, i, faults);
    }
    assert files[..|files|] == files;
    var finished := fs.Finish(ap, faults);
    if !finished {
      return Err(FinishFailed);
    }
    r := Ok(result);
  }

  /** `Action::execute`. */
  method Execute(action: Action, files: seq<RotireFile>, directory: Path, nowMs: nat, fs: FileSystem, faults: Faults)
    returns (r: Result<RotireResult, RotireError>)
    requires action == Action(Archive, false) ==> AllNamed(files)
    modifies fs
    ensures (fs.State(), Report(r)) == ExecuteEffect(action, old(fs.State()), files, directory, nowMs, faults)
  {
    match action.actionType {
      case Delete =>
        if action.dryRun {
          r := DryRunAction(files);
        } else {
          r := DeleteFilesAction(files, fs, faults);
        }
      case Archive =>
        if action.dryRun {
          r := DryRunAction(files);
        } else {
          r := ArchiveFilesAction(files, directory, nowMs, fs, faults);
        }
    }
  }
}

/** What the executor specifications promise. */
module ActionProperties {
  import opened Wrappers
  import opened Paths
  import opened Model
  import opened FileSystem
  import opened Actions
  import Text

  /** A delete run removes exactly the listed paths whose removal does not fail. */
  lemma {:induction false} DoomedMembers(files: seq<RotireFile>, faults: Faults, p: Path)
    ensures p in Doomed(files, faults) <==> p !in faults.removeFails && Mentions(files, p)
  {
    if files != [] {
      var init := files[..|files| - 1];
      DoomedMembers(init, faults, p);
      if Mentions(files, p) && p != files[|files| - 1].path {
        var i :| 0 <= i < |files| && files[i].path == p;
        assert i < |init| && init[i] == files[i];
      }
      if Mentions(init, p) {
        var i :| 0 <= i < |init| && init[i].path == p;
        assert files[i] == init[i];
      }
    }
  }

  /** The delete executor keeps every file it was not given, keeps the files
      whose removal fails, removes the rest, and never touches an archive. */
  lemma DeleteOutcome(st: FsState, files: seq<RotireFile>, faults: Faults, p: Path)
    ensures var (st', res) := DeleteEffect(st, files, faults);
      res == Ok(Totals(files)) && st'.archives == st.archives
      && (p in st'.files <==> p in st.files && (p in faults.removeFails || !Mentions(files, p)))
      && (p in st'.files ==> st'.files[p] == st.files[p])
  {
    DoomedMembers(files, faults, p);
  }

  /** `files[i].path == p` for some `i` exactly when it holds for one of the
      first `|files| - 1` files or for the last. */
  lemma MentionsLast(files: seq<RotireFile>, p: Path)
    requires files != []
    ensures Mentions(files, p) <==> Mentions(files[..|files| - 1], p) || files[|files| - 1].path == p
  {
    var init := files[..|files| - 1];
    if Mentions(files, p) && files[|files| - 1].path != p {
      var i :| 0 <= i < |files| && files[i].path == p;
      assert i < |init| && init[i] == files[i];
    }
    if Mentions(init, p) {
      var i :| 0 <= i < |init| && init[i].path == p;
      assert files[i] == init[i];
    }
  }

  /** The archive loop only removes files, and it removes exactly the
      present files it was given whose open, append and removal all
      succeed, whatever happens to the other files: a failure on one file
      does not stop the loop. Every file it keeps keeps its metadata. */
  lemma {:induction false} ArchiveLoopRemovals(st: FsState, ap: Path, files: seq<RotireFile>, faults: Faults)
    requires ap in st.archives && AllNamed(files)
    ensures var r := ArchiveLoop(st, ap, files, faults);
      (forall p :: p in r.files ==> p in st.files && r.files[p] == st.files[p])
      && (forall p :: p in st.files ==>
            (p !in r.files <==>
               Mentions(files, p) && p !in faults.openFails && p !in faults.appendFails && p !in faults.removeFails))
  {
    if files != [] {
      var init := files[..|files| - 1];
      var last := files[|files| - 1];
      assert AllNamed(init) by {
        forall i | 0 <= i < |init| ensures init[i].path.FileName().Some? { assert init[i] == files[i]; }
      }
      ArchiveLoopRemovals(st, ap, init, faults);
      var mid := ArchiveLoop(st, ap, init, faults);
      var r := ArchiveLoop(st, ap, files, faults);
      assert r == ArchiveOne(mid, ap, last, faults);
      assert forall p :: p in r.files ==> p in mid.files && r.files[p] == mid.files[p];
      forall p | p in st.files
        ensures p !in r.files <==>
                  Mentions(files, p) && p !in faults.openFails && p !in faults.appendFails && p !in faults.removeFails
      {
        MentionsLast(files, p);
      }
    }
  }

  /** No data loss: every file the archive loop removes has its base name
      among the archive's members, which only ever grow at the end. */
  lemma {:induction false} ArchiveRemovesOnlyArchived(st: FsState, ap: Path, files: seq<RotireFile>, faults: Faults)
    requires ap in st.archives && AllNamed(files)
    ensures var r := ArchiveLoop(st, ap, files, faults);
      st.archives[ap].members <= r.archives[ap].members
      && forall p :: p in st.files && p !in r.files ==>
           p.FileName().Some? && p.FileName().value in r.archives[ap].members
  {
    if files != [] {
      var init := files[..|files| - 1];
      var last := files[|files| - 1];
      assert AllNamed(init) by {
        forall i | 0 <= i < |init| ensures init[i].path.FileName().Some? { assert init[i] == files[i]; }
      }
      ArchiveRemovesOnlyArchived(st, ap, init, faults);
      ArchiveLoopRemovals(st, ap, init, faults);
      var mid := ArchiveLoop(st, ap, init, faults);
      var r := ArchiveLoop(st, ap, files, faults);
      assert r == ArchiveOne(mid, ap, last, faults);
      assert mid.archives[ap].members <= r.archives[ap].members;
      forall p | p in st.files && p !in r.files
        ensures p.FileName().Some? && p.FileName().value in r.archives[ap].members
      {
        if p in mid.files {
          assert p == last.path;
          assert r.archives[ap].members == mid.archives[ap].members + [p.FileName().value];
        } else {
          assert p.FileName().value in mid.archives[ap].members;
        }
      }
    }
  }

  /** The base names of `files`, in order. */
  function Names(files: seq<RotireFile>): seq<OsStr>
    requires AllNamed(files)
  {
    if files == [] then []
    else
      var init := files[..|files| - 1];
      assert AllNamed(init) by {
        forall i | 0 <= i < |init| ensures init[i].path.FileName().Some? { assert init[i] == files[i]; }
      }
      Names(init) + [files[|files| - 1].path.FileName().value]
  }

  predicate DistinctPaths(files: seq<RotireFile>) {
    forall i, j :: 0 <= i < j < |files| ==> files[i].path != files[j].path
  }

  /** The hypothesis of the fault-free case: distinct files that all exist
      and none of whose per-file operations fails. */
  predicate FaultFree(st: FsState, files: seq<RotireFile>, faults: Faults) {
    DistinctPaths(files)
    && forall i :: 0 <= i < |files| ==>
         files[i].path in st.files && files[i].path !in faults.openFails
         && files[i].path !in faults.appendFails && files[i].path !in faults.removeFails
  }

  lemma FaultFreeInit(st: FsState, files: seq<RotireFile>, faults: Faults)
    requires files != [] && FaultFree(st, files, faults) && AllNamed(files)
    ensures FaultFree(st, files[..|files| - 1], faults) && AllNamed(files[..|files| - 1])
    ensures !Mentions(files[..|files| - 1], files[|files| - 1].path)
  {
    var init := files[..|files| - 1];
    forall i | 0 <= i < |init| ensures init[i] == files[i] { }
  }

  /** Without per-file failures the archive loop removes exactly the files
      it was given. */
  lemma {:induction false} ArchiveWithoutFaultsRemoves(st: FsState, ap: Path, files: seq<RotireFile>, faults: Faults)
    requires ap in st.archives && AllNamed(files) && FaultFree(st, files, faults)
    ensures forall p :: p in ArchiveLoop(st, ap, files, faults).files <==> p in st.files && !Mentions(files, p)
  {
    if files != [] {
      var init := files[..|files| - 1];
      var last := files[|files| - 1];
      FaultFreeInit(st, files, faults);
      ArchiveWithoutFaultsRemoves(st, ap, init, faults);
      var mid := ArchiveLoop(st, ap, init, faults);
      var r := ArchiveLoop(st, ap, files, faults);
      assert r == ArchiveOne(mid, ap, last, faults);
      assert r.files == mid.files - {last.path};
      forall p ensures p in r.files <==> p in st.files && !Mentions(files, p) {
        if Mentions(files, p) && p != last.path {
          var i :| 0 <= i < |files| && files[i].path == p;
          assert i < |init| && init[i] == files[i];
        }
        if Mentions(init, p) {
          var i :| 0 <= i < |init| && init[i].path == p;
          assert files[i] == init[i];
        }
      }
    }
  }

  /** Without per-file failures the archive loop appends every file under
      its base name, in input order. */
  lemma {:induction false} ArchiveWithoutFaultsAppends(st: FsState, ap: Path, files: seq<RotireFile>, faults: Faults)
    requires ap in st.archives && AllNamed(files) && FaultFree(st, files, faults)
    ensures ArchiveLoop(st, ap, files, faults).archives[ap].members == st.archives[ap].members + Names(files)
  {
    if files == [] {
      assert st.archives[ap].members + [] == st.archives[ap].members;
    } else {
      var init := files[..|files| - 1];
      var last := files[|files| - 1];
      FaultFreeInit(st, files, faults);
      ArchiveWithoutFaultsAppends(st, ap, init, faults);
      ArchiveWithoutFaultsRemoves(st, ap, init, faults);
      var mid := ArchiveLoop(st, ap, init, faults);
      assert last.path in mid.files;
      var r := ArchiveLoop(st, ap, files, faults);
      assert r == ArchiveOne(mid, ap, last, faults);
      assert r.archives[ap].members == mid.archives[ap].members + [last.path.FileName().value];
    }
  }

  /** The first `|files| - 1` files of distinct named files are distinct
      and named, and none of them has the last file's path. */
  lemma DistinctInit(files: seq<RotireFile>)
    requires files != [] && DistinctPaths(files) && AllNamed(files)
    ensures DistinctPaths(files[..|files| - 1]) && AllNamed(files[..|files| - 1])
    ensures !Mentions(files[..|files| - 1], files[|files| - 1].path)
  {
    var init := files[..|files| - 1];
    forall i | 0 <= i < |init| ensures init[i] == files[i] { }
  }

  /** Whether one iteration of the archive loop appends `f`: it is present
      and its open and its append succeed. */
  predicate Appends(present: set<Path>, f: RotireFile, faults: Faults) {
    f.path in present && f.path !in faults.openFails && f.path !in faults.appendFails
  }

  /** The files the archive loop appends when their paths are distinct, in
      input order: those present at the start whose open and append
      succeed. */
  function Appendable(present: set<Path>, files: seq<RotireFile>, faults: Faults): (r: seq<RotireFile>)
    requires AllNamed(files)
    ensures AllNamed(r)
  {
    if files == [] then []
    else
      var init := files[..|files| - 1];
      var last := files[|files| - 1];
      assert AllNamed(init) by {
        forall i | 0 <= i < |init| ensures init[i].path.FileName().Some? { assert init[i] == files[i]; }
      }
      Appendable(present, init, faults) + (if Appends(present, last, faults) then [last] else [])
  }

  /** A file is among the appendable ones exactly when it is one of the
      files and present, and its open and append succeed. */
  lemma {:induction false} AppendableMembers(present: set<Path>, files: seq<RotireFile>, faults: Faults, f: RotireFile)
    requires AllNamed(files)
    ensures f in Appendable(present, files, faults) <==> f in files && Appends(present, f, faults)
  {
    if files != [] {
      var init := files[..|files| - 1];
      var last := files[|files| - 1];
      assert AllNamed(init) by {
        forall i | 0 <= i < |init| ensures init[i].path.FileName().Some? { assert init[i] == files[i]; }
      }
      assert files == init + [last];
      AppendableMembers(present, init, faults, f);
    }
  }

  /** `Names` of one more file. */
  lemma NamesSnoc(files: seq<RotireFile>, f: RotireFile)
    requires AllNamed(files) && f.path.FileName().Some?
    ensures AllNamed(files + [f])
    ensures Names(files + [f]) == Names(files) + [f.path.FileName().value]
  {
    assert (files + [f])[..|files|] == files;
  }

  /** The names of the appendable files, one file further. */
  lemma AppendableNamesStep(present: set<Path>, files: seq<RotireFile>, faults: Faults)
    requires files != [] && AllNamed(files)
    ensures AllNamed(files[..|files| - 1])
    ensures var last := files[|files| - 1];
      Names(Appendable(present, files, faults))
      == Names(Appendable(present, files[..|files| - 1], faults))
         + (if Appends(present, last, faults) then [last.path.FileName().value] else [])
  {
    var init := files[..|files| - 1];
    var last := files[|files| - 1];
    assert AllNamed(init) by {
      forall i | 0 <= i < |init| ensures init[i].path.FileName().Some? { assert init[i] == files[i]; }
    }
    var a := Appendable(present, init, faults);
    if Appends(present, last, faults) {
      NamesSnoc(a, last);
    } else {
      assert a + [] == a;
    }
  }

  /** One iteration of the archive loop appends the file's base name
      exactly when it is present and its open and append succeed. */
  lemma ArchiveOneMembers(st: FsState, ap: Path, f: RotireFile, faults: Faults)
    requires ap in st.archives && f.path.FileName().Some?
    ensures ArchiveOne(st, ap, f, faults).archives[ap].members
         == st.archives[ap].members + (if Appends(st.files.Keys, f, faults) then [f.path.FileName().value] else [])
  {
    if !Appends(st.files.Keys, f, faults) {
      assert st.archives[ap].members + [] == st.archives[ap].members;
    }
  }

  /** The archive loop leaves a path it is not given as it found it. */
  lemma ArchiveLoopKeeps(st: FsState, ap: Path, files: seq<RotireFile>, faults: Faults, p: Path)
    requires ap in st.archives && AllNamed(files) && !Mentions(files, p)
    ensures p in ArchiveLoop(st, ap, files, faults).files <==> p in st.files
  {
    ArchiveLoopRemovals(st, ap, files, faults);
  }

  /** With distinct paths, what the archive loop appends even when some
      files fail: after the members already there, the base names of
      exactly the files that were present and whose open and append
      succeeded, in input order. A file whose open or append fails is
      not appended. */
  lemma {:induction false} ArchiveLoopMembers(st: FsState, ap: Path, files: seq<RotireFile>, faults: Faults)
    requires ap in st.archives && AllNamed(files) && DistinctPaths(files)
    ensures ArchiveLoop(st, ap, files, faults).archives[ap].members
         == st.archives[ap].members + Names(Appendable(st.files.Keys, files, faults))
  {
    if files == [] {
      assert st.archives[ap].members + [] == st.archives[ap].members;
    } else {
      var init := files[..|files| - 1];
      var last := files[|files| - 1];
      DistinctInit(files);
      ArchiveLoopMembers(st, ap, init, faults);
      ArchiveLoopKeeps(st, ap, init, faults, last.path);
      var mid := ArchiveLoop(st, ap, init, faults);
      assert ArchiveLoop(st, ap, files, faults) == ArchiveOne(mid, ap, last, faults);
      ArchiveOneMembers(mid, ap, last, faults);
      AppendableNamesStep(st.files.Keys, files, faults);
    }
  }

  /** What an archive run that got past `create` did to the files, from
      the files `before` to the files `after`, with `members` the archive's
      members: a file other than the archive is removed exactly when it was
      given and its open, append and removal succeed, and then its base
      name is a member; files not given stay with their metadata; the
      archive file stays unless it is itself one of the files; and with
      distinct paths the members are the base names of the files that were
      present and whose open and append succeed, in input order. */
  predicate LoopOutcome(before: map<Path, Metadata>, after: map<Path, Metadata>, members: seq<OsStr>,
                        ap: Path, files: seq<RotireFile>, faults: Faults)
    requires AllNamed(files)
  {
    (forall p :: p in after && p != ap ==> p in before && after[p] == before[p])
    && (forall p :: p in before && p != ap ==>
       (p !in after <==>
          Mentions(files, p) && p !in faults.openFails && p !in faults.appendFails && p !in faults.removeFails))
    && (forall p :: p in before && p != ap && p !in after ==> p.FileName().Some? && p.FileName().value in members)
    && (forall p :: p in before && p != ap && !Mentions(files, p) ==> p in after && after[p] == before[p])
    && (!Mentions(files, ap) ==> ap in after)
    && (DistinctPaths(files) ==> members == Names(Appendable(before.Keys + {ap}, files, faults)))
  }

  /** The archive executor: a create failure is an error before anything
      happens; otherwise exactly the archive at `rotire-archive-<ms>.tar.gz`
      inside the directory is new, finished exactly when `finish` succeeds,
      which is also exactly when the run succeeds with every file counted,
      and the files and members are as `LoopOutcome` states. */
  lemma {:induction false} ArchiveOutcome(st: FsState, files: seq<RotireFile>, directory: Path, nowMs: nat, faults: Faults)
    requires AllNamed(files)
    ensures var (st', res) := ArchiveEffect(st, files, directory, nowMs, faults);
      var ap := ArchivePath(directory, nowMs);
      (faults.createFails ==> st' == st && res == Err(CreateFailed))
      && (!faults.createFails ==>
            st'.archives.Keys == st.archives.Keys + {ap}
            && (forall q :: q in st.archives && q != ap ==> st'.archives[q] == st.archives[q])
            && st'.archives[ap].finished == !faults.finishFails
            && (res.Ok? <==> !faults.finishFails)
            && (res.Ok? ==> res.value == Totals(files))
            && (res.Err? ==> res.error == FinishFailed)
            && LoopOutcome(st.files, st'.files, st'.archives[ap].members, ap, files, faults))
  {
    if !faults.createFails {
      var ap := ArchivePath(directory, nowMs);
      var looped := ArchiveLoop(Created(st, ap, faults), ap, files, faults);
      var st' := ArchiveEffect(st, files, directory, nowMs, faults).0;
      assert st'.files == looped.files && st'.archives[ap].members == looped.archives[ap].members;
      CreatedLoop(st, ap, files, faults);
    }
  }

  /** The archive loop started right after the archive was created. */
  lemma CreatedLoop(st: FsState, ap: Path, files: seq<RotireFile>, faults: Faults)
    requires AllNamed(files)
    ensures var r := ArchiveLoop(Created(st, ap, faults), ap, files, faults);
      LoopOutcome(st.files, r.files, r.archives[ap].members, ap, files, faults)
  {
    CreatedLoopFiles(st, ap, files, faults);
    CreatedLoopMembers(st, ap, files, faults);
  }

  /** What the archive loop does to the files, started right after the
      archive was created: a file other than the archive goes exactly when
      it was given and its open, append and removal succeed; files not
      given keep their metadata; the archive file stays unless it was
      given. */
  lemma CreatedLoopFiles(st: FsState, ap: Path, files: seq<RotireFile>, faults: Faults)
    requires AllNamed(files)
    ensures var r := ArchiveLoop(Created(st, ap, faults), ap, files, faults);
      (forall p :: p in r.files && p != ap ==> p in st.files && r.files[p] == st.files[p])
      && (forall p :: p in st.files && p != ap ==>
         (p !in r.files <==>
            Mentions(files, p) && p !in faults.openFails && p !in faults.appendFails && p !in faults.removeFails))
      && (forall p :: p in st.files && p != ap && !Mentions(files, p) ==> p in r.files && r.files[p] == st.files[p])
      && (!Mentions(files, ap) ==> ap in r.files)
  {
    var c := Created(st, ap, faults);
    assert c.files.Keys == st.files.Keys + {ap};
    ArchiveLoopRemovals(c, ap, files, faults);
  }

  /** What the archive loop puts into the archive, started right after the
      archive was created: every removed file's base name, and with
      distinct paths exactly the base names of the appendable files. */
  lemma CreatedLoopMembers(st: FsState, ap: Path, files: seq<RotireFile>, faults: Faults)
    requires AllNamed(files)
    ensures var r := ArchiveLoop(Created(st, ap, faults), ap, files, faults);
      (forall p :: p in st.files && p != ap && p !in r.files ==>
         p.FileName().Some? && p.FileName().value in r.archives[ap].members)
      && (DistinctPaths(files) ==> r.archives[ap].members == Names(Appendable(st.files.Keys + {ap}, files, faults)))
  {
    var c := Created(st, ap, faults);
    assert c.files.Keys == st.files.Keys + {ap};
    ArchiveRemovesOnlyArchived(c, ap, files, faults);
    if DistinctPaths(files) {
      ArchiveLoopMembers(c, ap, files, faults);
      assert [] + Names(Appendable(c.files.Keys, files, faults)) == Names(Appendable(c.files.Keys, files, faults));
    }
  }

  /** The whole archive executor when nothing fails and the files are
      distinct, present and not the archive itself: the archive is created
      and finished holding every file's base name in order, exactly those
      files are removed, and the totals are reported. */
  lemma {:induction false} ArchiveClean(st: FsState, files: seq<RotireFile>, directory: Path, nowMs: nat, faults: Faults)
    requires AllNamed(files) && DistinctPaths(files)
    requires NoFailures(faults)
    requires forall i :: 0 <= i < |files| ==> files[i].path in st.files
    requires !Mentions(files, ArchivePath(directory, nowMs))
    ensures var (st', res) := ArchiveEffect(st, files, directory, nowMs, faults);
      var ap := ArchivePath(directory, nowMs);
      (forall p :: p in st'.files <==> p == ap || (p in st.files && !Mentions(files, p)))
      && ap in st'.archives && st'.archives[ap] == TarArchive(Names(files), true)
      && res == Ok(Totals(files))
  {
    var ap := ArchivePath(directory, nowMs);
    var c := Created(st, ap, faults);
    assert FaultFree(c, files, faults);
    ArchiveWithoutFaultsRemoves(c, ap, files, faults);
    ArchiveWithoutFaultsAppends(c, ap, files, faults);
  }

  /** A dry run changes nothing and reports every file; the real run of
      either kind reports the same totals whenever it succeeds, and a
      delete always succeeds. */
  lemma DryRunMatchesReal(t: ActionType, st: FsState, files: seq<RotireFile>, directory: Path,
                          nowMs: nat, faults: Faults)
    requires AllNamed(files)
    ensures ExecuteEffect(Action(t, true), st, files, directory, nowMs, faults) == (st, Ok(Totals(files)))
    ensures var outcome := ExecuteEffect(Action(t, false), st, files, directory, nowMs, faults).1;
      (outcome.Ok? ==> outcome == Ok(Totals(files)))
      && (t == Delete ==> outcome.Ok?)
      && (t == Archive ==> (outcome.Ok? <==> !faults.createFails && !faults.finishFails))
  {
  }

  /** The archive name carries the millisecond timestamp, so runs at
      different milliseconds write different archives. */
  lemma ArchiveNameInjective(a: nat, b: nat)
    requires ArchiveName(a) == ArchiveName(b)
    ensures a == b
  {
    var sa, sb := ArchiveName(a), ArchiveName(b);
    assert sa[15..|sa| - 7] == Text.NatDecimal(a);
    assert sb[15..|sb| - 7] == Text.NatDecimal(b);
    Text.DecimalInjective(a, b);
  }

  /** The archive name starts with `rotire-archive-` and ends with `.tar.gz`. */
  lemma ArchiveNameShape(nowMs: nat)
    ensures Text.StartsWith(ArchiveName(nowMs), "rotire-archive-")
    ensures Text.EndsWith(ArchiveName(nowMs), ".tar.gz")
  {
  }
}
