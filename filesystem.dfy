/** The filesystem the executors act on, as an abstract state: a map from
    path to metadata for the files that exist, and the tar archives written
    so far, each an ordered list of member names plus a `finished` flag.
    Whether an individual call fails is decided by a failure oracle passed
    in, so per-file failures are ordinary inputs. */
module FileSystem {
  import opened Wrappers
  import opened Paths
  import opened Model

  /** What the environment decides: which calls fail (`fs::remove_file`,
      `File::open` and `Builder::append_file` on the listed paths,
      `File::create` of the archive, and `Builder::finish`), and the
      modification time, in the filesystem's own units, that a newly
      created archive gets. */
  datatype Faults = Faults(
    removeFails: set<Path>,
    openFails: set<Path>,
    appendFails: set<Path>,
    createFails: bool,
    finishFails: bool,
    archiveModified: int)

  /** No call fails. */
  predicate NoFailures(faults: Faults) {
    faults.removeFails == {} && faults.openFails == {} && faults.appendFails == {}
    && !faults.createFails && !faults.finishFails
  }

  /** A gzip-compressed tar stream: its members, by name, in order. */
  datatype TarArchive = TarArchive(members: seq<OsStr>, finished: bool)

  datatype FsState = FsState(files: map<Path, Metadata>, archives: map<Path, TarArchive>)

  class FileSystem {
    var files: map<Path, Metadata>
    var archives: map<Path, TarArchive>

    constructor (files: map<Path, Metadata>)
      ensures this.files == files && archives == map[]
    {
      this.files := files;
      archives := map[];
    }

    function State(): FsState
      reads this
    {
      FsState(files, archives)
    }

    /** `fs::remove_file`: fails when the file is absent or the oracle says so. */
    method RemoveFile(p: Path, faults: Faults) returns (ok: bool)
      modifies this
      ensures ok == (p in old(files) && p !in faults.removeFails)
      ensures files == if ok then old(files) - {p} else old(files)
      ensures archives == old(archives)
    {
      ok := p in files && p !in faults.removeFails;
      if ok {
        files := files - {p};
      }
    }

    /** `File::open` for reading: fails when the file is absent or the
        oracle says so; opening changes nothing. */
    method Open(p: Path, faults: Faults) returns (ok: bool)
      ensures ok == (p in files && p !in faults.openFails)
    {
      ok := p in files && p !in faults.openFails;
    }

    /** `File::create` of an archive, wrapped in a tar builder: an empty
        file at `p`, created or truncated, and an empty, unfinished archive. */
    method CreateArchive(p: Path, faults: Faults) returns (ok: bool)
      modifies this
      ensures ok == !faults.createFails
      ensures files == if ok then old(files)[p := Metadata(0, Some(faults.archiveModified))] else old(files)
      ensures archives == if ok then old(archives)[p := TarArchive([], false)] else old(archives)
    {
      ok := !faults.createFails;
      if ok {
        files := files[p := Metadata(0, Some(faults.archiveModified))];
        archives := archives[p := TarArchive([], false)];
      }
    }

    /** `Builder::append_file`: adds a member named `name` with the content
        of the open file `source`, unless the oracle says it fails. */
    method AppendFile(archive: Path, name: OsStr, source: Path, faults: Faults) returns (ok: bool)
      requires archive in archives
      modifies this
      ensures ok == (source !in faults.appendFails)
      ensures archives == if ok then old(archives)[archive := TarArchive(old(archives)[archive].members + [name], false)]
                          else old(archives)
      ensures files == old(files)
    {
      ok := source !in faults.appendFails;
      if ok {
        archives := archives[archive := TarArchive(archives[archive].members + [name], false)];
      }
    }

    /** `Builder::finish`: marks the archive complete, unless it fails. */
    method Finish(archive: Path, faults: Faults) returns (ok: bool)
      requires archive in archives
      modifies this
      ensures ok == !faults.finishFails
      ensures archives == if ok then old(archives)[archive := TarArchive(old(archives)[archive].members, true)]
                          else old(archives)
      ensures files == old(files)
    {
      ok := !faults.finishFails;
      if ok {
        archives := archives[archive := TarArchive(archives[archive].members, true)];
      }
    }
  }
}
