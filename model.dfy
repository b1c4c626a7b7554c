/** The records of the engine (`src/rotire/model.rs`): a scanned file with
    its metadata, and the result accumulator with its two counters and its
    human-readable rendering. */
module Model {
  import opened Wrappers
  import opened Paths
  import Text

  type i32 = x: int | -0x8000_0000 <= x < 0x8000_0000
  type u64 = x: int | 0 <= x < 0x1_0000_0000_0000_0000

  const I32_MAX: int := 0x7fff_ffff
  const U64_MAX: int := 0xffff_ffff_ffff_ffff

  /** Two's-complement wrap-around of `+` on `i32`, as an optimised build
      computes it. */
  function WrapI32(x: int): (r: i32)
    ensures -0x8000_0000 <= x < 0x8000_0000 ==> r == x
    ensures (x - r) % 0x1_0000_0000 == 0
  {
    (x + 0x8000_0000) % 0x1_0000_0000 - 0x8000_0000
  }

  /** Wrap-around of `+` on `u64`. */
  function WrapU64(x: int): (r: u64)
    ensures 0 <= x < 0x1_0000_0000_0000_0000 ==> r == x
    ensures (x - r) % 0x1_0000_0000_0000_0000 == 0
  {
    x % 0x1_0000_0000_0000_0000
  }

  lemma WrapI32Succ(x: int)
    ensures WrapI32(WrapI32(x) + 1) == WrapI32(x + 1)
  {
    var q := (x + 0x8000_0000) / 0x1_0000_0000;
    assert x + 1 == WrapI32(x) + 1 + q * 0x1_0000_0000;
    ModShift32(WrapI32(x) + 1 + 0x8000_0000, q);
  }

  lemma WrapU64Add(x: int, y: int)
    ensures WrapU64(WrapU64(x) + y) == WrapU64(x + y)
  {
    var q := x / 0x1_0000_0000_0000_0000;
    assert x + y == WrapU64(x) + y + q * 0x1_0000_0000_0000_0000;
    ModShift64(WrapU64(x) + y, q);
  }

  lemma ModShift32(a: int, q: int)
    ensures (a + q * 0x1_0000_0000) % 0x1_0000_0000 == a % 0x1_0000_0000
  {
  }

  lemma ModShift64(a: int, q: int)
    ensures (a + q * 0x1_0000_0000_0000_0000) % 0x1_0000_0000_0000_0000 == a % 0x1_0000_0000_0000_0000
  {
  }

  /** The metadata the engine reads: the size in bytes (`st_size`) and the
      modification time, `None` when the platform cannot report it. */
  datatype Metadata = Metadata(size: u64, modified: Option<int>)

  /** `RotireFile`: a path together with the metadata read for it. */
  datatype RotireFile = RotireFile(path: Path, metadata: Metadata)

  datatype RotireError =
    | AlreadyRunning   // a run is already in progress
    | ListFailed       // the directory cannot be listed
    | CreateFailed     // the archive file cannot be created
    | FinishFailed     // the archive cannot be finalised

  /** The value of a `RotireResult`: affected files and affected bytes. */
  datatype Counts = Counts(affectedFiles: i32, affectedFilesSize: u64)

  /** The sum of the sizes of `files`, without wrap-around. */
  function SumSizes(files: seq<RotireFile>): nat
  {
    if files == [] then 0 else SumSizes(files[..|files| - 1]) + files[|files| - 1].metadata.size
  }

  /** What an executor reports after counting every file of `files` once:
      one per file and its size, both with wrap-around. */
  function Totals(files: seq<RotireFile>): Counts
  {
    Counts(WrapI32(|files|), WrapU64(SumSizes(files)))
  }

  /** Counting one more file extends the totals by one file and its size. */
  lemma TotalsStep(files: seq<RotireFile>, i: nat)
    requires i < |files|
    ensures Totals(files[..i + 1]).affectedFiles == WrapI32(Totals(files[..i]).affectedFiles + 1)
    ensures Totals(files[..i + 1]).affectedFilesSize
         == WrapU64(Totals(files[..i]).affectedFilesSize + files[i].metadata.size)
  {
    assert files[..i + 1][..i] == files[..i];
    WrapI32Succ(i);
    WrapU64Add(SumSizes(files[..i]), files[i].metadata.size);
  }

  /** Without overflow the totals only grow as more files are counted. */
  lemma {:induction false} TotalsMonotone(files: seq<RotireFile>, i: nat, j: nat)
    requires i <= j <= |files|
    requires |files| <= I32_MAX && SumSizes(files) <= U64_MAX
    ensures Totals(files[..i]).affectedFiles <= Totals(files[..j]).affectedFiles
    ensures Totals(files[..i]).affectedFilesSize <= Totals(files[..j]).affectedFilesSize
  {
    SumPrefixMonotone(files, i, j);
    SumPrefixMonotone(files, j, |files|);
    assert files[..|files|] == files;
  }

  lemma {:induction false} SumPrefixMonotone(files: seq<RotireFile>, i: nat, j: nat)
    requires i <= j <= |files|
    ensures SumSizes(files[..i]) <= SumSizes(files[..j])
    decreases j - i
  {
    if i < j {
      SumPrefixMonotone(files, i, j - 1);
      assert files[..j][..j - 1] == files[..j - 1];
    }
  }

  const MIB: nat := 1024 * 1024

  /** Bytes converted to whole MiB, rounding down. */
  function SizeInMib(bytes: nat): (m: nat)
    ensures m * MIB <= bytes < (m + 1) * MIB
  {
    bytes / MIB
  }

  /** The text `Display` writes for a result with these counters. */
  function DisplayText(affectedFiles: i32, affectedFilesSize: u64): string
  {
    "Affected files " + Text.IntDecimal(affectedFiles) + ", containing "
      + Text.NatDecimal(SizeInMib(affectedFilesSize)) + " MiB."
  }

  /** `count` is the decimal numeral of `i`: a minus sign exactly when `i`
      is negative, followed by digits that read back to its magnitude. */
  predicate NumeralOf(count: string, i: int) {
    |count| >= 1 && (count[0] == '-' <==> i < 0)
    && var digits := if i < 0 then count[1..] else count;
       |digits| >= 1 && (digits[0] == '0' ==> |digits| == 1)
       && Text.AllDigits(digits) && Text.ParseDecimal(digits) == (if i < 0 then -i else i)
  }

  /** `m` is the decimal numeral, without leading zeros, of the whole MiB
      in `bytes`, rounded down. */
  predicate MibNumeralOf(m: string, bytes: nat) {
    |m| >= 1 && (m[0] == '0' ==> |m| == 1) && Text.AllDigits(m) && Text.ParseDecimal(m) * MIB <= bytes < (Text.ParseDecimal(m) + 1) * MIB
  }

  /** The rendering names the file count, with a minus sign exactly when
      it is negative, and the size floored to MiB, each as a numeral that
      reads back to its value. */
  lemma DisplayTextParts(affectedFiles: i32, affectedFilesSize: u64)
    ensures exists count, m ::
      DisplayText(affectedFiles, affectedFilesSize) == "Affected files " + count + ", containing " + m + " MiB."
      && NumeralOf(count, affectedFiles) && MibNumeralOf(m, affectedFilesSize)
  {
    var count := Text.IntDecimal(affectedFiles);
    var m := Text.NatDecimal(SizeInMib(affectedFilesSize));
    Text.DecimalRoundTrip(SizeInMib(affectedFilesSize));
    assert NumeralOf(count, affectedFiles);
    assert MibNumeralOf(m, affectedFilesSize);
    var text := DisplayText(affectedFiles, affectedFilesSize);
    assert text == "Affected files " + count + ", containing " + m + " MiB.";
  }

  /** `RotireResult`: the accumulator an executor bumps once per file. */
  class RotireResult {
    var affectedFiles: i32
    var affectedFilesSize: u64

    /** `RotireResult::new`: both counters start at zero. */
    constructor ()
      ensures affectedFiles == 0 && affectedFilesSize == 0
    {
      affectedFiles := 0;
      affectedFilesSize := 0;
    }

    /** Raises the file count by one; the size is unchanged. */
    method IncAffectedFiles()
      modifies this
      ensures affectedFiles == WrapI32(old(affectedFiles) + 1)
      ensures old(affectedFiles) < I32_MAX ==> affectedFiles == old(affectedFiles) + 1
      ensures affectedFilesSize == old(affectedFilesSize)
    {
      affectedFiles := WrapI32(affectedFiles + 1);
    }

    /** Raises the byte total by `size`; the count is unchanged. */
    method IncAffectedFilesSize(size: u64)
      modifies this
      ensures affectedFilesSize == WrapU64(old(affectedFilesSize) + size)
      ensures old(affectedFilesSize) + size <= U64_MAX ==> affectedFilesSize == old(affectedFilesSize) + size
      ensures affectedFiles == old(affectedFiles)
    {
      affectedFilesSize := WrapU64(affectedFilesSize + size);
    }

    function Snapshot(): Counts
      reads this
    {
      Counts(affectedFiles, affectedFilesSize)
    }

    /** `impl Display for RotireResult`: the count and the size in MiB,
        each as its decimal numeral. */
    function ToString(): (r: string)
      reads this
      ensures exists count, m ::
        r == "Affected files " + count + ", containing " + m + " MiB."
        && NumeralOf(count, affectedFiles) && MibNumeralOf(m, affectedFilesSize)
    {
      DisplayTextParts(affectedFiles, affectedFilesSize);
      DisplayText(affectedFiles, affectedFilesSize)
    }
  }

  /** The counters a returned result holds, or the error. */
  function Report(r: Result<RotireResult, RotireError>): Result<Counts, RotireError>
    reads if r.Ok? then {r.value} else {}
  {
    match r
    case Ok(res) => Ok(res.Snapshot())
    case Err(e) => Err(e)
  }
}
