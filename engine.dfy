/** The rotation engine (`Rotire` in `src/rotire/mod.rs`): a directory, a
    list of filters and a flag that rejects a run while another is in
    progress. A run scans, sorts, partitions and executes. */
module Engine {
  import opened Wrappers
  import opened Paths
  import opened Model
  import opened Filter
  import opened FileSystem
  import opened Actions
  import opened Scan
  import opened Partition

  class Rotire {
    var isRunning: bool
    const directory: Path
    var filters: seq<RotireFilter>

    /** `Rotire::new`: idle, on `directory`, without filters. */
    constructor (directory: Path)
      ensures this.directory == directory && !isRunning && filters == []
    {
      this.directory := directory;
      isRunning := false;
      filters := [];
    }

    /** `add_filter`: appends the filter to the chain. */
    method AddFilter(filter: RotireFilter)
      modifies this
      ensures filters == old(filters) + [filter]
      ensures isRunning == old(isRunning)
    {
      filters := filters + [filter];
    }

    /** `list_files_in_directory`, given what `read_dir` yields for the
        directory (`None` when it cannot be listed). */
    function ListFilesInDirectory(listing: Option<seq<DirEntry>>): (r: Result<seq<RotireFile>, RotireError>)
      reads this
      requires listing.Some? ==> FilterableListing(filters, listing.value)
      ensures r.Err? <==> listing.None?
      ensures r.Err? ==> r.error == ListFailed
      ensures r.Ok? ==> r.value == ScanEntries(directory, filters, listing.value)
    {

      match listing
      case None => Err(ListFailed)
      case Some(entries) => Ok(ScanEntries(directory, filters, entries))
    }

    /** `execute_action`: the delete or archive loop, never a dry run; the
        archive goes into the engine's directory. */
    method ExecuteAction(files: seq<RotireFile>, action: ActionType, nowMs: nat, fs: FileSystem, faults: Faults)
      returns (r: Result<RotireResult, RotireError>)
      requires action == Archive ==> AllNamed(files)
      modifies fs
      ensures (fs.State(), Report(r)) == ExecuteEffect(Action(action, false), old(fs.State()), files, directory, nowMs, faults)
    {
      match action {
        case Delete => r := DeleteFilesAction(files, fs, faults);
        case Archive => r := ArchiveFilesAction(files, directory, nowMs, fs, faults);
      }
    }

    /** `run`: rejected while `isRunning`; otherwise sets the flag, scans,
        sorts oldest first, hands all but the `keepMaxFiles` newest to the
        action and clears the flag only when everything succeeded. An error
        from the scan or the action returns early and leaves the flag set.
        `sorted` is the order the sort produced. */
    method Run(keepMaxFiles: i32, action: ActionType, listing: Option<seq<DirEntry>>, nowMs: nat,
               fs: FileSystem, faults: Faults)
      returns (r: Result<RotireResult, RotireError>, ghost sorted: seq<RotireFile>)
      requires listing.Some? ==> FilterableListing(filters, listing.value)
      modifies this, fs
      ensures filters == old(filters)
      ensures old(isRunning) ==>
        r == Err(AlreadyRunning) && isRunning && fs.State() == old(fs.State())
      ensures !old(isRunning) && listing.None? ==>
        r == Err(ListFailed) && isRunning && fs.State() == old(fs.State())
      ensures !old(isRunning) && listing.Some? ==>
        IsSortedPermutation(ScanEntries(directory, filters, listing.value), sorted)
        && AllNamed(RotateSet(sorted, keepMaxFiles))
        && (fs.State(), Report(r))
           == ExecuteEffect(Action(action, false), old(fs.State()), RotateSet(sorted, keepMaxFiles), directory, nowMs, faults)
        && (isRunning <==> r.Err?)
    {
      sorted := [];
      if isRunning {
        return Err(AlreadyRunning), sorted;
      }
      isRunning := true;
      var listed := ListFilesInDirectory(listing);
      if listed.Err? {
        return Err(listed.error), sorted;
      }
      var files := listed.value;
      var a := new RotireFile[|files|](i requires 0 <= i < |files| => files[i]);
      assert a[..] == files;
      SortByModified(a);
      sorted := a[..];
      var rotate := RotateSet(a[..], keepMaxFiles);
      ScanSound(directory, filters, listing.value);
      RotateNamed(files, sorted, keepMaxFiles);
      r := ExecuteAction(rotate, action, nowMs, fs, faults);
      if r.Err? {
        return;
      }
      isRunning := false;
    }
  }

  /** Rotated files come from the scan, so each has a file name. */
  lemma RotateNamed(files: seq<RotireFile>, sorted: seq<RotireFile>, k: i32)
    requires multiset(sorted) == multiset(files)
    requires forall f :: f in files ==> f.path.FileName().Some?
    ensures AllNamed(RotateSet(sorted, k))
  {
    var rotate := RotateSet(sorted, k);
    RotateSubset(sorted, k);
    forall i | 0 <= i < |rotate| ensures rotate[i].path.FileName().Some? {
      assert rotate[i] in sorted;
      assert rotate[i] in multiset(files);
    }
  }
}

/** End-to-end properties of a run, stated on the specification functions
    that `Rotire.Run` is proved against: a directory whose files have
    distinct, increasing modification times keeps exactly its `k` newest. */
module RunProperties {
  import opened Wrappers
  import opened Paths
  import opened Model
  import opened FileSystem
  import opened Actions
  import opened ActionProperties
  import opened Scan
  import opened Partition

  /** Every entry readable, with a known modification time, times strictly
      increasing in listing order, names distinct. */
  predicate IncreasingListing(entries: seq<DirEntry>) {
    (forall i :: 0 <= i < |entries| ==>
       entries[i].Entry? && entries[i].metadata.Some? && entries[i].metadata.value.modified.Some?)
    && (forall i, j :: 0 <= i < j < |entries| ==>
          entries[i].metadata.value.modified.value < entries[j].metadata.value.modified.value
          && entries[i].name != entries[j].name)
  }

  /** An increasing listing scans, without filters, to one file per entry
      in listing order, so the scan has strictly increasing times. */
  lemma {:induction false} IncreasingScan(directory: Path, entries: seq<DirEntry>)
    requires IncreasingListing(entries)
    ensures var scan := ScanEntries(directory, [], entries);
      |scan| == |entries| && StrictlyIncreasing(scan)
  {
    ScanUnfiltered(directory, entries);
  }

  /** ... and its files are named and have distinct paths. */
  lemma {:induction false} IncreasingScanDistinct(directory: Path, entries: seq<DirEntry>)
    requires IncreasingListing(entries)
    ensures var scan := ScanEntries(directory, [], entries);
      DistinctPaths(scan) && AllNamed(scan)
  {
    ScanUnfiltered(directory, entries);
    var scan := ScanEntries(directory, [], entries);
    forall i, j | 0 <= i < j < |scan| ensures scan[i].path != scan[j].path {
      assert scan[i].path.FileName() == Some(entries[i].name);
      assert scan[j].path.FileName() == Some(entries[j].name);
    }
  }

  /** With distinct increasing times the sort has only one possible
      outcome, so the rotate set is the `n - k` oldest, newest first, and the
      kept set the `k` newest. */
  lemma {:induction false} KeepNewest(scan: seq<RotireFile>, sorted: seq<RotireFile>, k: i32)
    requires StrictlyIncreasing(scan) && 0 <= k <= |scan|
    requires IsSortedPermutation(scan, sorted)
    ensures sorted == scan
    ensures RotateSet(sorted, k) == Reverse(scan[..|scan| - k])
    ensures KeptSet(sorted, k) == Reverse(scan[|scan| - k..])
  {
    SortedUnique(scan, sorted);
    RotateIsOldest(sorted, k);
    KeptIsNewest(sorted, k);
  }

  lemma {:induction false} MentionsReverse(s: seq<RotireFile>, p: Path)
    ensures Mentions(Reverse(s), p) <==> Mentions(s, p)
  {
    ReverseAt(s);
    var r := Reverse(s);
    if Mentions(s, p) {
      var i :| 0 <= i < |s| && s[i].path == p;
      assert r[|s| - 1 - i] == s[i];
    }
    if Mentions(r, p) {
      var i :| 0 <= i < |r| && r[i].path == p;
      assert s[|s| - 1 - i] == r[i];
    }
  }

  /** With distinct paths, a path of `s` is in exactly one of `s[..m]` and `s[m..]`. */
  lemma {:induction false} MentionsSplit(s: seq<RotireFile>, m: nat, p: Path)
    requires m <= |s| && DistinctPaths(s)
    ensures Mentions(s, p) <==> Mentions(s[..m], p) || Mentions(s[m..], p)
    ensures !(Mentions(s[..m], p) && Mentions(s[m..], p))
  {
    if Mentions(s, p) {
      var i :| 0 <= i < |s| && s[i].path == p;
      if i < m { assert s[..m][i] == s[i]; } else { assert s[m..][i - m] == s[i]; }
    }
    if Mentions(s[..m], p) {
      var i :| 0 <= i < m && s[..m][i].path == p;
      assert s[i] == s[..m][i];
    }
    forall i, j | 0 <= i < m && 0 <= j < |s| - m ensures s[..m][i].path != s[m..][j].path {
      assert s[..m][i] == s[i] && s[m..][j] == s[m + j];
    }
    if Mentions(s[m..], p) {
      var j :| 0 <= j < |s| - m && s[m..][j].path == p;
      assert s[m + j] == s[m..][j];
    }
  }

  /** A directory that held exactly the scanned files, from which the
      oldest `m`, newest first, were taken away and `extra` added, holds
      exactly `extra` and the rest of the scan. */
  lemma {:induction false} Survivors(scan: seq<RotireFile>, m: nat, before: set<Path>, after: set<Path>, extra: set<Path>)
    requires DistinctPaths(scan) && m <= |scan|
    requires forall p :: p in before <==> Mentions(scan, p)
    requires forall p :: p in after <==> p in extra || (p in before && !Mentions(Reverse(scan[..m]), p))
    ensures forall p :: p in after <==> p in extra || Mentions(scan[m..], p)
  {
    forall p ensures p in after <==> p in extra || Mentions(scan[m..], p) {
      MentionsReverse(scan[..m], p);
      MentionsSplit(scan, m, p);
    }
  }

  /** The oldest `m` files, newest first, are named, distinct and each in
      a directory that holds every scanned file. */
  lemma {:induction false} OldestFacts(s: seq<RotireFile>, m: nat, present: set<Path>)
    requires AllNamed(s) && DistinctPaths(s) && m <= |s|
    requires forall i :: 0 <= i < |s| ==> s[i].path in present
    ensures var rot := Reverse(s[..m]);
      |rot| == m && AllNamed(rot) && DistinctPaths(rot)
      && (forall i :: 0 <= i < |rot| ==> rot[i].path in present)
  {
    var rot := Reverse(s[..m]);
    ReverseAt(s[..m]);
    forall i | 0 <= i < |rot| ensures rot[i] == s[m - 1 - i] {
      assert rot[i] == s[..m][m - 1 - i];
    }
  }

  /** Delete, with no removal failing, on a directory holding exactly the
      scanned files: afterwards exactly the `k` newest remain, and the
      result counts the `n - k` others. */
  lemma {:induction false} DeleteKeepsNewest(scan: seq<RotireFile>, sorted: seq<RotireFile>, k: i32,
                                             directory: Path, st: FsState, nowMs: nat, faults: Faults)
    requires StrictlyIncreasing(scan) && DistinctPaths(scan) && 0 <= k <= |scan| <= I32_MAX
    requires IsSortedPermutation(scan, sorted)
    requires forall p :: p in st.files <==> Mentions(scan, p)
    requires faults.removeFails == {}
    ensures var (st', res) := ExecuteEffect(Action(Delete, false), st, RotateSet(sorted, k), directory, nowMs, faults);
      (forall p :: p in st'.files <==> Mentions(scan[|scan| - k..], p))
      && res.Ok? && res.value.affectedFiles == |scan| - k
  {
    var n := |scan|;
    KeepNewest(scan, sorted, k);
    var rot := RotateSet(sorted, k);
    ReverseAt(scan[..n - k]);
    var (st', res) := DeleteEffect(st, rot, faults);
    forall p ensures p in st'.files <==> p in st.files && !Mentions(rot, p) {
      DeleteOutcome(st, rot, faults, p);
    }
    Survivors(scan, n - k, st.files.Keys, st'.files.Keys, {});
  }

  /** A dry run of either kind removes nothing and still reports the
      `n - k` files a real run would handle. */
  lemma {:induction false} DryRunKeepsEverything(t: ActionType, scan: seq<RotireFile>, sorted: seq<RotireFile>, k: i32,
                                                 directory: Path, st: FsState, nowMs: nat, faults: Faults)
    requires StrictlyIncreasing(scan) && AllNamed(scan) && 0 <= k <= |scan| <= I32_MAX
    requires IsSortedPermutation(scan, sorted)
    ensures var (st', res) := ExecuteEffect(Action(t, true), st, RotateSet(sorted, k), directory, nowMs, faults);
      st' == st && res.Ok? && res.value.affectedFiles == |scan| - k
  {
    KeepNewest(scan, sorted, k);
    ReverseAt(scan[..|scan| - k]);
  }

  /** Archiving the oldest `m` scanned files, newest first, with nothing
      failing, from a directory holding exactly the scanned files. */
  lemma {:induction false} ArchiveOldest(scan: seq<RotireFile>, m: nat, directory: Path, st: FsState,
                                         nowMs: nat, faults: Faults)
    requires AllNamed(scan) && DistinctPaths(scan) && m <= |scan|
    requires forall p :: p in st.files <==> Mentions(scan, p)
    requires NoFailures(faults)
    requires !Mentions(scan, ArchivePath(directory, nowMs))
    ensures AllNamed(Reverse(scan[..m]))
    ensures var (st', res) := ArchiveEffect(st, Reverse(scan[..m]), directory, nowMs, faults);
      var ap := ArchivePath(directory, nowMs);
      (forall p :: p in st'.files <==> p == ap || Mentions(scan[m..], p))
      && ap in st'.archives && st'.archives[ap] == TarArchive(Names(Reverse(scan[..m])), true)
      && res == Ok(Totals(Reverse(scan[..m])))
  {
    var ap := ArchivePath(directory, nowMs);
    var rot := Reverse(scan[..m]);
    forall i | 0 <= i < |scan| ensures scan[i].path in st.files {
      assert Mentions(scan, scan[i].path);
    }
    OldestFacts(scan, m, st.files.Keys);
    assert !Mentions(rot, ap) by {
      MentionsReverse(scan[..m], ap);
      MentionsSplit(scan, m, ap);
    }
    ArchiveClean(st, rot, directory, nowMs, faults);
    var (st', res) := ArchiveEffect(st, rot, directory, nowMs, faults);
    Survivors(scan, m, st.files.Keys, st'.files.Keys, {ap});
  }

  /** Archive, with nothing failing, on a directory holding exactly the
      scanned files: afterwards the `k` newest remain beside one new,
      finished archive whose members are the base names of the `n - k`
      others, newest first, and the result counts those `n - k`. */
  lemma {:induction false} ArchiveKeepsNewest(scan: seq<RotireFile>, sorted: seq<RotireFile>, k: i32,
                                              directory: Path, st: FsState, nowMs: nat, faults: Faults)
    requires StrictlyIncreasing(scan) && AllNamed(scan) && DistinctPaths(scan) && 0 <= k <= |scan| <= I32_MAX
    requires IsSortedPermutation(scan, sorted)
    requires forall p :: p in st.files <==> Mentions(scan, p)
    requires NoFailures(faults)
    requires !Mentions(scan, ArchivePath(directory, nowMs))
    ensures var ap := ArchivePath(directory, nowMs);
      AllNamed(RotateSet(sorted, k))
      && var (st', res) := ExecuteEffect(Action(Archive, false), st, RotateSet(sorted, k), directory, nowMs, faults);
      (forall p :: p in st'.files <==> p == ap || Mentions(scan[|scan| - k..], p))
      && ap in st'.archives && st'.archives[ap] == TarArchive(Names(RotateSet(sorted, k)), true)
      && res.Ok? && res.value.affectedFiles == |scan| - k
  {
    KeepNewest(scan, sorted, k);
    ArchiveOldest(scan, |scan| - k, directory, st, nowMs, faults);
    ReverseAt(scan[..|scan| - k]);
  }
}
