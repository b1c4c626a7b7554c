/** The entry scanner (`list_files_in_directory` of `src/rotire/mod.rs`):
    the listing of the directory, with entries that cannot be read and
    entries whose metadata cannot be read dropped, then the filter chain. */
module Scan {
  import opened Wrappers
  import opened Paths
  import opened Model
  import opened Filter

  /** One item of `fs::read_dir`: an error, or the name of a child together
      with what `fs::metadata` returned for it. */
  datatype DirEntry = Unreadable | Entry(name: OsStr, metadata: Option<Metadata>)

  /** What the filter chain needs of a listing: with at least one filter,
      every entry that reaches the chain has a UTF-8 name (otherwise
      `satisfies` panics). */
  predicate FilterableListing(filters: seq<RotireFilter>, entries: seq<DirEntry>) {
    filters != [] ==>
      forall i :: 0 <= i < |entries| && entries[i].Entry? && entries[i].metadata.Some? ==> entries[i].name.Utf8?
  }

  /** The two `filter_map` stages: the child's path inside `directory`, with
      its metadata, when both could be read. */
  function Resolve(directory: Path, e: DirEntry): (r: Option<RotireFile>)
    ensures r.Some? <==> e.Entry? && e.metadata.Some?
    ensures r.Some? ==> r.value.path.FileName() == Some(e.name) && r.value.path.Parent() == directory
    ensures r.Some? ==> r.value.metadata == e.metadata.value
  {
    match e
    case Unreadable => None
    case Entry(name, md) => if md.Some? then Some(RotireFile(directory.Join(name), md.value)) else None
  }

  /** One entry through both stages: its file when it resolves and the
      filter chain admits it. */
  function Admitted(directory: Path, filters: seq<RotireFilter>, e: DirEntry): Option<RotireFile>
    requires filters != [] && e.Entry? && e.metadata.Some? ==> e.name.Utf8?
  {
    match Resolve(directory, e)
    case None => None
    case Some(f) => if Admits(filters, f) then Some(f) else None
  }

  /** Any slice of a filterable listing is filterable. */
  lemma FilterableSlice(filters: seq<RotireFilter>, entries: seq<DirEntry>, lo: nat, hi: nat)
    requires FilterableListing(filters, entries) && lo <= hi <= |entries|
    ensures FilterableListing(filters, entries[lo..hi])
  {
    forall i | 0 <= i < hi - lo ensures entries[lo..hi][i] == entries[lo + i] { }
  }

  /** The scan: resolved entries that pass the filter chain, in listing order. */
  function ScanEntries(directory: Path, filters: seq<RotireFilter>, entries: seq<DirEntry>): (files: seq<RotireFile>)
    requires FilterableListing(filters, entries)
    ensures |files| <= |entries|
  {
    if entries == [] then []
    else
      FilterableSlice(filters, entries, 1, |entries|);
      assert entries[1..|entries|] == entries[1..];
      var rest := ScanEntries(directory, filters, entries[1..]);
      match Admitted(directory, filters, entries[0])
      case None => rest
      case Some(f) => [f] + rest
  }

  /** Every scanned file is a named child of the directory that the filter
      chain admits (with a UTF-8 name whenever there is a filter). */
  lemma {:induction false} ScanSound(directory: Path, filters: seq<RotireFilter>, entries: seq<DirEntry>)
    requires FilterableListing(filters, entries)
    ensures forall f :: f in ScanEntries(directory, filters, entries) ==>
      f.path.Parent() == directory && f.path.FileName().Some?
      && (filters != [] ==> HasTextName(f.path)) && Admits(filters, f)
  {
    if entries != [] {
      FilterableSlice(filters, entries, 1, |entries|);
      assert entries[1..|entries|] == entries[1..];
      ScanSound(directory, filters, entries[1..]);
    }
  }

  /** `f` is the resolution of some entry of the listing. */
  predicate Listed(directory: Path, entries: seq<DirEntry>, f: RotireFile) {
    exists i :: 0 <= i < |entries| && Resolve(directory, entries[i]) == Some(f)
  }

  lemma ListedCons(directory: Path, entries: seq<DirEntry>, f: RotireFile)
    requires entries != []
    ensures Listed(directory, entries, f)
       <==> Resolve(directory, entries[0]) == Some(f) || Listed(directory, entries[1..], f)
  {
    var tail := entries[1..];
    if Listed(directory, entries, f) && Resolve(directory, entries[0]) != Some(f) {
      var i :| 0 <= i < |entries| && Resolve(directory, entries[i]) == Some(f);
      assert i > 0 && tail[i - 1] == entries[i];
    }
    if Listed(directory, tail, f) {
      var i :| 0 <= i < |tail| && Resolve(directory, tail[i]) == Some(f);
      assert entries[i + 1] == tail[i];
    }
  }

  /** A file is in the scan exactly when some entry resolves to it and it
      satisfies every filter. */
  lemma {:induction false} ScanMembership(directory: Path, filters: seq<RotireFilter>, entries: seq<DirEntry>, f: RotireFile)
    requires FilterableListing(filters, entries)
    ensures f in ScanEntries(directory, filters, entries) <==>
      Listed(directory, entries, f) && (filters == [] || (HasTextName(f.path) && AllSatisfy(filters, f)))
  {
    if entries != [] {
      FilterableSlice(filters, entries, 1, |entries|);
      assert entries[1..|entries|] == entries[1..];
      ScanMembership(directory, filters, entries[1..], f);
      ListedCons(directory, entries, f);
    }
  }

  /** The scan keeps listing order: scanning two listings one after the other
      is scanning their concatenation. */
  lemma {:induction false} ScanAppend(directory: Path, filters: seq<RotireFilter>, a: seq<DirEntry>, b: seq<DirEntry>)
    requires FilterableListing(filters, a + b)
    ensures FilterableListing(filters, a) && FilterableListing(filters, b)
    ensures ScanEntries(directory, filters, a + b) == ScanEntries(directory, filters, a) + ScanEntries(directory, filters, b)
  {
    FilterableSlice(filters, a + b, 0, |a|);
    FilterableSlice(filters, a + b, |a|, |a| + |b|);
    assert (a + b)[0..|a|] == a && (a + b)[|a|..|a| + |b|] == b;
    if a != [] {
      assert (a + b)[1..] == a[1..] + b;
      assert (a + b)[0] == a[0];
      ScanAppend(directory, filters, a[1..], b);
    } else {
      assert a + b == b;
    }
  }

  /** Without filters, a listing whose entries can all be read scans to all
      of them, one file per entry, in order. */
  lemma {:induction false} ScanUnfiltered(directory: Path, entries: seq<DirEntry>)
    requires forall i :: 0 <= i < |entries| ==> entries[i].Entry? && entries[i].metadata.Some?
    ensures var files := ScanEntries(directory, [], entries);
      |files| == |entries|
      && forall i :: 0 <= i < |entries| ==>
           files[i] == RotireFile(directory.Join(entries[i].name), entries[i].metadata.value)
  {
    if entries != [] {
      var tail := entries[1..];
      forall i | 0 <= i < |tail| ensures tail[i] == entries[i + 1] { }
      ScanUnfiltered(directory, tail);
      var rest := ScanEntries(directory, [], tail);
      var head := RotireFile(directory.Join(entries[0].name), entries[0].metadata.value);
      assert Resolve(directory, entries[0]) == Some(head);
      assert ScanEntries(directory, [], entries) == [head] + rest;
      forall i | 0 < i < |entries| ensures ([head] + rest)[i] == rest[i - 1] { }
    }
  }
}
