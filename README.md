# rotire retention engine in Dafny

`rotire` keeps the `k` newest files of one directory and deletes or
archives the rest. This project models its core and proves what that core
promises:

- the file filters (`RotireFilter::satisfies`, a prefix or suffix test on
  the last path segment);
- the directory scan: unreadable entries and entries without metadata are
  dropped, and the filter chain is AND-combined;
- the sort oldest first, and the split of the sorted files into the `k`
  newest, which are kept, and the rest, newest first, which are rotated;
- the result accumulator `RotireResult`, with its two counters and its
  `Display` text;
- the executors: delete, archive and dry run, both in the refactored
  `actions.rs` and in `execute_action` of `mod.rs`;
- the engine `Rotire`, with its filters and the `is_running` guard.

Layout, one module per file and one file per concern:

| file | module | models |
|---|---|---|
| `wrappers.dfy` | `Wrappers` | `Option` and `Result` |
| `text.dfy` | `Text` | decimal formatting as `{}` prints it, `str::starts_with`, `str::ends_with` |
| `paths.dfy` | `Paths` | `OsStr` (UTF-8 or not), path components, `file_name`, `join`, and the path without its last component |
| `model.dfy` | `Model` | `src/rotire/model.rs`: `RotireFile`, `RotireResult` (a class), the MiB display, wrap-around counters |
| `filter.dfy` | `Filter` | `src/rotire/filter.rs` and the filter chain of `list_files_in_directory` |
| `filesystem.dfy` | `FileSystem` | the filesystem as a map from path to metadata, archives as member lists, and per-path failure oracles |
| `actions.dfy` | `Actions`, `ActionProperties` | `src/rotire/actions.rs` and `execute_action` of `src/rotire/mod.rs` |
| `scan.dfy` | `Scan` | `list_files_in_directory` of `src/rotire/mod.rs` |
| `partition.dfy` | `Partition` | the comparator, the in-place sort, `rev().skip(k as usize)` |
| `engine.dfy` | `Engine`, `RunProperties` | `Rotire::new`, `add_filter`, `run`, and what a whole run does |

How the outside world enters the model:

- The directory listing is an input, `Option<seq<DirEntry>>`: `None` when
  `read_dir` fails, otherwise one item per `read_dir` item, either
  `Unreadable` or a name with `Some(metadata)` or `None` when
  `fs::metadata` fails.
- The filesystem is a `FileSystem` object holding a map from path to
  metadata (size, and an optional modification time as an abstract
  integer at whatever resolution the platform records, compared as
  `SystemTime` values are) and a map from archive path to its member names
  and a `finished` flag.
- What the environment decides is a `Faults` value. It lists the paths
  whose removal, open or append fails, says whether creating the archive
  and finishing it fail, and gives the modification time the filesystem
  records for the newly created archive.
- `SystemTime::now()` as whole milliseconds since the epoch, which only
  names the archive, is the input `nowMs`.

Every `for` loop of the source is a `method` with a loop and invariants; the
`filter_map`/`filter`/`all` pipeline and `rev().skip()` are functions. Each
executor is proved against a specification function of the state before
the call (`DeleteEffect`, `ArchiveEffect`, `ExecuteEffect`), and the
lemmas of `ActionProperties` and `RunProperties` state what those
functions promise. The sort is an insertion sort in place on an `array`,
using the source's comparator.

Behaviour of the code worth noting, which the model follows:

- The executors count every file they are given, size first and then the
  file, before the per-file operation runs, so a file whose open, append
  or removal fails is still counted.
- `run` sets `is_running` and clears it only on the success path. An error
  from the scan, from creating the archive or from finishing it returns
  early through `?` and leaves the flag set, so every later run on the
  same engine is rejected.
- A negative `keep_max_files` is sign-extended by `as usize` to a value
  near 2^64, so `skip` skips everything and nothing is rotated.
- `actions.rs` is not declared as a module in `src/rotire/mod.rs:1-2`, so
  it is dead code; it is modelled on its own terms. `execute_action` in
  `mod.rs` runs the same two loops and is modelled by the same methods.
- `src/main.rs:13-37` declares no `--dry-run` flag, although
  `tests/rotire_integration_test.rs:137` passes one. The dry run exists
  only through `Action` of `actions.rs`.

## Model

| member | source | states |
|---|---|---|
| Text.NatDecimal | src/rotire/model.rs:41-45 | prints at least one digit, only digits, with a leading zero exactly for zero |
| Text.DecimalRoundTrip | src/rotire/model.rs:41-45 | reading the printed digits back gives the number |
| Text.DecimalInjective | src/rotire/model.rs:41-45 | different numbers print differently |
| Text.IntDecimal | src/rotire/model.rs:43-44 | the `i32` count prints with a minus sign exactly when it is negative, followed by digits, without leading zeros, that read back to its magnitude |
| Text.StartsWith | src/rotire/filter.rs:19 | true exactly when the prefix is no longer than the name and equals its first characters |
| Text.EndsWith | src/rotire/filter.rs:26 | true exactly when the suffix is no longer than the name and equals its last characters |
| Paths.ToStr | src/rotire/filter.rs:17-18 | definition of the standard call: `to_str` gives a string exactly for UTF-8 names, and then their text |
| Paths.Path.FileName | src/rotire/filter.rs:15 | definition of the standard call: a name exactly when the last component is a normal one, and then that component's name |
| Paths.Path.Join | src/rotire/actions.rs:91-92 | the joined path has the given file name and the original path as parent |
| Model.WrapI32 | src/rotire/model.rs:29 | the result is in `i32` range and congruent to the input modulo 2^32; in range it is the input |
| Model.WrapU64 | src/rotire/model.rs:34 | the result is in `u64` range and congruent to the input modulo 2^64; in range it is the input |
| Model.WrapI32Succ | src/rotire/model.rs:29 | counting `n + 1` files with wrap-around is one more wrapped step after `n` |
| Model.WrapU64Add | src/rotire/model.rs:34 | adding a size to a wrapped total wraps like adding it to the exact total |
| Model.TotalsStep | src/rotire/actions.rs:99-100 | the totals of one more file are the previous totals bumped once by one and once by its size |
| Model.TotalsMonotone | src/rotire/model.rs:28-35 | without overflow both counters never decrease as more files are counted |
| Model.SizeInMib | src/rotire/model.rs:40 | the MiB figure is the floor of bytes over 1048576 |
| Model.DisplayTextParts | src/rotire/model.rs:41-45 | for every `i32` count and `u64` size, the text is `Affected files `, the count's numeral (a minus sign exactly for a negative count, then digits without leading zeros reading back to its magnitude), `, containing `, digits without leading zeros reading back to the size floored to MiB, ` MiB.` |
| Model.RotireResult.constructor | src/rotire/model.rs:20-25 | both counters start at zero |
| Model.RotireResult.IncAffectedFiles | src/rotire/model.rs:28-30 | the count rises by one (wrapping at the `i32` limit) and the size is unchanged |
| Model.RotireResult.IncAffectedFilesSize | src/rotire/model.rs:33-35 | the size rises by `size` (wrapping at the `u64` limit) and the count is unchanged |
| Model.RotireResult.ToString | src/rotire/model.rs:38-46 | `Display` writes `Affected files `, the count's numeral, `, containing `, the numeral of the whole MiB, ` MiB.`, each numeral canonical and reading back to its value |
| Filter.Satisfies | src/rotire/filter.rs:11-28 | a prefix filter holds exactly when the name is the value followed by something, a suffix filter exactly when the name is something followed by the value |
| Filter.SameNameSameAnswer | src/rotire/filter.rs:13-26 | two files with the same file name get the same answer, whatever their directories |
| Filter.EmptyValueAdmitsAll | src/rotire/filter.rs:19-26 | an empty prefix and an empty suffix hold for every file |
| Filter.AllSatisfy | src/rotire/mod.rs:65 | `all` holds exactly when every filter of the chain holds |
| Filter.AdmitsIffEach | src/rotire/mod.rs:61-66 | the chain admits a file exactly when each filter holds; an empty chain admits every file |
| Filter.AdmitsAppend | src/rotire/mod.rs:44-46 | after adding a filter, a file passes exactly when it passed before and passes the new one |
| FileSystem.FileSystem.RemoveFile | src/rotire/actions.rs:65 | succeeds exactly for an existing path whose removal does not fail, and then only that path is gone |
| FileSystem.FileSystem.Open | src/rotire/actions.rs:103 | succeeds exactly for an existing path whose open does not fail, and changes nothing |
| FileSystem.FileSystem.CreateArchive | src/rotire/actions.rs:94 | unless creation fails, creates or truncates an empty file at the path, with the modification time the environment gives, and an empty unfinished archive |
| FileSystem.FileSystem.AppendFile | src/rotire/actions.rs:106-107 | unless the append fails, adds the member name at the end of the archive; files are unchanged |
| FileSystem.FileSystem.Finish | src/rotire/actions.rs:121 | unless finishing fails, marks the archive finished with the same members |
| Actions.Default | src/rotire/actions.rs:126-132 | definition of the constant: the default action is a real archive run |
| Actions.ArchivePath | src/rotire/actions.rs:91-92 | the archive lies directly in the directory and is named `rotire-archive-<ms>.tar.gz` |
| Actions.ArchiveLoop | src/rotire/actions.rs:98-120 | the loop changes no archive but the one it writes, adds none, and leaves it unfinished |
| Actions.CountFile | src/rotire/actions.rs:99-100 | after counting file `i` the accumulator holds the totals of the first `i + 1` files |
| Actions.DryRunAction | src/rotire/actions.rs:73-82 | succeeds with count and size equal to the wrapped totals of all files |
| Actions.DeleteFilesAction | src/rotire/actions.rs:59-70 | always succeeds; the new state and the totals are those of `DeleteEffect` |
| Actions.ArchiveFile | src/rotire/actions.rs:102-119 | one loop iteration is `ArchiveOne`: open, append the base name, remove only after a successful append |
| Actions.ArchiveFilesAction | src/rotire/actions.rs:84-123 | the new state and the result are those of `ArchiveEffect`: create, loop, finish |
| Actions.Execute | src/rotire/actions.rs:38-55 | the state and result are those of `ExecuteEffect`: a dry run whenever `dryRun` is set, else the real action |
| ActionProperties.DoomedMembers | src/rotire/actions.rs:61-68 | a delete run removes a path exactly when it is one of the files and its removal does not fail |
| ActionProperties.DeleteOutcome | src/rotire/actions.rs:59-70 | a delete run reports the totals of all files, keeps the archives, removes exactly the listed paths whose removal succeeds, and leaves other metadata unchanged |
| ActionProperties.ArchiveLoopRemovals | src/rotire/actions.rs:98-120 | the loop removes a present file exactly when it was given and its own open, append and removal succeed, whatever fails on other files; it adds no file and kept files keep their metadata |
| ActionProperties.AppendableMembers | src/rotire/actions.rs:103-107 | a file is appendable exactly when it is one of the files, present, and its open and append succeed |
| ActionProperties.ArchiveLoopMembers | src/rotire/actions.rs:98-120 | with distinct paths, even when some files fail, the loop appends after the existing members exactly the base names of the appendable files, in input order; a file whose open or append fails is not appended |
| ActionProperties.ArchiveRemovesOnlyArchived | src/rotire/mod.rs:106-118 | every file the loop removes has its base name among the archive's members |
| ActionProperties.ArchiveWithoutFaultsRemoves | src/rotire/actions.rs:98-120 | with distinct present files and no per-file failure, the loop removes exactly the given files |
| ActionProperties.ArchiveWithoutFaultsAppends | src/rotire/actions.rs:106-107 | with no per-file failure, the loop appends the base names of all files, in input order |
| ActionProperties.ArchiveOutcome | src/rotire/actions.rs:84-123 | a create failure changes nothing and returns the error; otherwise exactly one archive is added, finished exactly when finishing succeeds, the totals come back exactly on success; no file other than the archive appears and every file other than the archive that stays keeps its metadata; a file other than the archive is removed exactly when it was given and its open, append and removal succeed, and is then archived; files not given stay; the archive file stays unless it is one of the files; with distinct paths the members are the appendable files' base names in order |
| ActionProperties.ArchiveClean | src/rotire/mod.rs:90-126 | with nothing failing, the archive holds every base name in order and is finished, exactly the given files are removed, and the totals are returned |
| ActionProperties.DryRunMatchesReal | src/rotire/actions.rs:38-55 | a dry run changes nothing and returns the totals; a real run that succeeds returns the same totals; delete always succeeds, archive exactly when create and finish succeed |
| ActionProperties.ArchiveNameInjective | src/rotire/actions.rs:92 | different timestamps give different archive names |
| ActionProperties.ArchiveNameShape | src/rotire/actions.rs:92 | the archive name starts with `rotire-archive-` and ends with `.tar.gz` |
| Scan.Resolve | src/rotire/mod.rs:52-60 | an entry becomes a file exactly when it is readable and has metadata; the file's path has the entry's name as file name and the directory as parent, and the file carries the entry's metadata |
| Scan.ScanEntries | src/rotire/mod.rs:49-70 | the scan has no more files than the listing has entries |
| Scan.ScanSound | src/rotire/mod.rs:61-66 | every scanned file is a named child of the directory that the filter chain admits |
| Scan.ScanMembership | src/rotire/mod.rs:50-67 | a file is scanned exactly when some entry resolves to it and, if there are filters, every filter holds |
| Scan.ScanAppend | src/rotire/mod.rs:50-67 | scanning a concatenated listing is concatenating the scans, so listing order is kept |
| Scan.ScanUnfiltered | src/rotire/mod.rs:62-64 | without filters, a fully readable listing scans to one file per entry, in order |
| Partition.CompareModified | src/rotire/mod.rs:142-149 | `Greater` exactly for two known times with the first later, `Equal` exactly for two equal known times, `Less` in every other case |
| Partition.ComparatorNotAntisymmetric | src/rotire/mod.rs:145-147 | with a missing time each file compares `Less` than the other |
| Partition.SortByModified | src/rotire/mod.rs:142-149 | the array ends as a permutation of its old contents, oldest first whenever every time is known |
| Partition.AsUsize | src/rotire/mod.rs:153 | a non-negative `k` is kept, a negative one becomes at least 2^64 - 2^31 |
| Partition.RotateSetSize | src/rotire/mod.rs:153 | the rotate set has `n - k` files when `0 <= k <= n` and none otherwise; kept and rotated sizes add up to `n` |
| Partition.KeptAndRotatedSplit | src/rotire/mod.rs:153 | kept followed by rotated is the sorted files newest first, and together they are a permutation of them |
| Partition.RotateIsOldest | src/rotire/mod.rs:153 | the rotate set is the `n - k` oldest files, newest first |
| Partition.KeptIsNewest | src/rotire/mod.rs:153 | the kept set is the `k` newest files, newest first |
| Partition.RotateSubset | src/rotire/mod.rs:153 | every rotated file is one of the sorted files |
| Partition.RotatedNoNewerThanKept | src/rotire/mod.rs:142-153 | with all times known, no rotated file is newer than a kept one |
| Partition.SortedUnique | src/rotire/mod.rs:142-149 | with distinct times, the only sorted permutation is the increasing order |
| Engine.Rotire.constructor | src/rotire/mod.rs:35-41 | a new engine is idle, on the given directory, without filters |
| Engine.Rotire.AddFilter | src/rotire/mod.rs:44-46 | the filter is appended at the end; the flag is unchanged |
| Engine.Rotire.ListFilesInDirectory | src/rotire/mod.rs:49-70 | fails with the listing error exactly when `read_dir` fails; otherwise it gives the scan of the entries |
| Engine.Rotire.ExecuteAction | src/rotire/mod.rs:72-129 | the state and result are those of the real delete or archive run on the engine's directory |
| Engine.Rotire.Run | src/rotire/mod.rs:131-159 | a busy engine and a failed listing return their errors without touching files; otherwise the rotate set of a sorted permutation of the scan goes to the action, and the flag is clear exactly when the run succeeded |
| Engine.RotateNamed | src/rotire/mod.rs:152-155 | every rotated file has a file name, as the archive loop needs |
| RunProperties.IncreasingScan | src/rotire/mod.rs:50-67 | an increasing readable listing scans to as many files, with strictly increasing times |
| RunProperties.IncreasingScanDistinct | src/rotire/mod.rs:52-56 | the files of a listing with distinct names have a file name and distinct paths |
| RunProperties.KeepNewest | src/rotire/mod.rs:142-153 | with distinct times the sort is the scan order, the rotate set is the `n - k` oldest newest first, the kept set the `k` newest |
| RunProperties.DeleteKeepsNewest | tests/rotire_integration_test.rs:63-114 | a delete with no failing removal leaves exactly the `k` newest files and counts the other `n - k` |
| RunProperties.DryRunKeepsEverything | tests/rotire_integration_test.rs:116-171 | a dry run leaves every file in place and counts the `n - k` files a real run would handle |
| RunProperties.ArchiveOldest | src/rotire/actions.rs:84-123 | archiving the `m` oldest with nothing failing leaves the archive and the rest, with the base names in the archive |
| RunProperties.ArchiveKeepsNewest | tests/rotire_integration_test.rs:6-61 | an archive run with nothing failing leaves the `k` newest beside one finished archive of the others' base names, and counts `n - k` |

## Left out

- Real filesystem calls (`read_dir`, `fs::metadata`, `remove_file`, `File::open`, `File::create`): replaced by the `FileSystem` maps and the `Faults` oracle.
- The bytes of the archive: gzip and tar encoding belong to foreign crates; an archive is its list of member names and a `finished` flag, and its recorded size stays 0.
- `SystemTime::now()` and the `expect("Time went backwards")` panic: the time is the input `nowMs`; the archive's own modification time is an input in `Faults`.
- The atomicity of `AtomicBool` with `Ordering::Relaxed`: `is_running` is a plain field; concurrent runs are not modelled.
- Logging through `error!` and `info!`: it has no effect on the state or the result.
- The order `sort_unstable_by` produces when a modification time is missing: the comparator is then not a total order, so the sort promises only a permutation in that case, and stability is not promised. Since Rust 1.81 `sort_unstable_by` may also panic when it detects a comparator that is not a total order; that panic is not modelled.
- ActionProperties.ArchiveOutcome: when the files include the archive path itself (an existing `rotire-archive-<ms>.tar.gz` of the same millisecond), `File::create` truncates it and the loop may append and remove it, so the archive is gone from disk; the model removes the path from `files` but keeps its member list in `archives`, and does not model a tar stream that contains itself.
- Partition.SortByModified: the source's unstable sort is modelled by one particular insertion sort; the contract states only what any correct sort gives.
- Model.RotireResult.IncAffectedFiles: models the release-build wrap-around of `+=`; the debug-build overflow panic is not modelled.
- Model.RotireResult.IncAffectedFilesSize: models the release-build wrap-around of `+=`; the debug-build overflow panic is not modelled.
- Partition.AsUsize: assumes a 64-bit `usize`.
- Actions.ArchiveFilesAction: requires every file to have a file name, because `file_name().unwrap()` (`src/rotire/actions.rs:107`) panics otherwise after a successful open; the panic is not modelled, and every caller passes scanned files, which are named.
- Filter.Satisfies: requires a UTF-8 file name, because the source's `unwrap` panics otherwise; the panic is not modelled, and `Engine.Rotire.Run` requires such names when there is a filter.
- `Action::new`: it is the datatype constructor `Action(actionType, dryRun)`, which stores both unchanged.
- `src/main.rs`: argument parsing, logger setup and printing are not modelled; note only that any action other than `delete` selects Archive (`src/main.rs:46-49`).
- `src/rotire.rs`: a stale stub whose `run` only sets a flag; it is not part of this model.
- `tests/rotire_integration_test.rs`: its scenarios appear as the `RunProperties` lemmas; its assertion on `read_dir` order depends on the platform and is not modelled.
