/** The file-name filters (`src/rotire/filter.rs`) and the way the scan
    combines them (`src/rotire/mod.rs`, the `.filter` stage of
    `list_files_in_directory`). */
module Filter {
  import opened Wrappers
  import opened Paths
  import opened Model
  import Text

  /** `RotireFilter`: keep files whose name starts, or ends, with `value`. */
  datatype RotireFilter = Prefix(value: string) | Suffix(value: string)

  /** What `satisfies` needs to avoid panicking: the path has a file name
      (first `unwrap`) and that name is valid UTF-8 (second `unwrap`). */
  predicate HasTextName(p: Path) {
    p.FileName().Some? && p.FileName().value.Utf8?
  }

  function TextName(p: Path): string
    requires HasTextName(p)
  {
    p.FileName().value.text
  }

  /** `RotireFilter::satisfies`: a prefix or suffix test on the last path
      segment only. */
  predicate Satisfies(f: RotireFilter, file: RotireFile)
    requires HasTextName(file.path)
    ensures Satisfies(f, file) <==>
      var name := TextName(file.path);
      match f
      case Prefix(v) => exists rest :: name == v + rest
      case Suffix(v) => exists front :: name == front + v
  {
    var name := TextName(file.path);
    match f
    case Prefix(v) =>
      var b := Text.StartsWith(name, v);
      assert b ==> name == v + name[|v|..];
      b
    case Suffix(v) =>
      var b := Text.EndsWith(name, v);
      assert b ==> name == name[..|name| - |v|] + v;
      b
  }

  /** Only the file name matters: two files whose paths end in the same
      name get the same answer, whatever their directories. */
  lemma SameNameSameAnswer(f: RotireFilter, a: RotireFile, b: RotireFile)
    requires HasTextName(a.path) && a.path.FileName() == b.path.FileName()
    ensures HasTextName(b.path)
    ensures Satisfies(f, a) == Satisfies(f, b)
  {
  }

  /** An empty value admits every file, for both kinds of filter. */
  lemma EmptyValueAdmitsAll(file: RotireFile)
    requires HasTextName(file.path)
    ensures Satisfies(Prefix(""), file) && Satisfies(Suffix(""), file)
  {
    var name := TextName(file.path);
    assert name == "" + name && name == name + "";
  }

  /** `filters.iter().all(|x| x.satisfies(file))`, one filter after the other. */
  predicate AllSatisfy(filters: seq<RotireFilter>, file: RotireFile)
    requires filters != [] ==> HasTextName(file.path)
    ensures AllSatisfy(filters, file) <==>
      forall i :: 0 <= i < |filters| ==> Satisfies(filters[i], file)
  {
    filters == [] || (Satisfies(filters[0], file) && AllSatisfy(filters[1..], file))
  }

  /** The scan's admission test: an empty list admits every file, otherwise
      every filter must be satisfied. */
  predicate Admits(filters: seq<RotireFilter>, file: RotireFile)
    requires filters != [] ==> HasTextName(file.path)
  {
    if filters == [] then true else AllSatisfy(filters, file)
  }

  /** Filters combine by AND: a file passes the chain exactly when it
      satisfies each filter on its own, and an empty chain admits all. */
  lemma AdmitsIffEach(filters: seq<RotireFilter>, file: RotireFile)
    requires filters != [] ==> HasTextName(file.path)
    ensures Admits(filters, file) <==> forall i :: 0 <= i < |filters| ==> Satisfies(filters[i], file)
    ensures filters == [] ==> Admits(filters, file)
  {
  }

  /** Adding a filter narrows the chain by exactly that filter. */
  lemma AdmitsAppend(filters: seq<RotireFilter>, f: RotireFilter, file: RotireFile)
    requires HasTextName(file.path)
    ensures Admits(filters + [f], file) <==> Admits(filters, file) && Satisfies(f, file)
  {
    var fs := filters + [f];
    assert fs[|filters|] == f;
    if Admits(filters, file) && Satisfies(f, file) {
      assert forall i :: 0 <= i < |fs| ==> Satisfies(fs[i], file) by {
        forall i | 0 <= i < |fs| ensures Satisfies(fs[i], file) {
          if i < |filters| { assert fs[i] == filters[i]; }
        }
      }
    }
    if Admits(fs, file) {
      forall i | 0 <= i < |filters| ensures Satisfies(filters[i], file) {
        assert fs[i] == filters[i];
      }
    }
  }
}
