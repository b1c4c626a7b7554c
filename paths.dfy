/** Paths as Rust's `std::path` sees them: a sequence of components whose
    names are OS strings, which may or may not be valid UTF-8. */
module Paths {
  import opened Wrappers

  /** An OS string: valid UTF-8 text, or raw bytes that are not valid UTF-8. */
  datatype OsStr = Utf8(text: string) | NonUtf8(bytes: seq<bv8>)

  /** `OsStr::to_str`: the text, when the string is valid UTF-8. */
  function ToStr(o: OsStr): (r: Option<string>)
    ensures r.Some? <==> o.Utf8?
    ensures r.Some? ==> r.value == o.text
  {
    match o
    case Utf8(t) => Some(t)
    case NonUtf8(_) => None
  }

  datatype Component = RootDir | CurDir | ParentDir | Normal(name: OsStr)

  datatype Path = Path(components: seq<Component>) {

    /** `Path::file_name`: the last component when it is a normal name;
        a path that is empty or ends in the root, `.` or `..` has none. */
    function FileName(): (r: Option<OsStr>)
      ensures r.Some? <==> |components| > 0 && components[|components| - 1].Normal?
      ensures r.Some? ==> components[|components| - 1] == Normal(r.value)
    {
      if |components| > 0 && components[|components| - 1].Normal?
      then Some(components[|components| - 1].name)
      else None
    }

    /** `PathBuf::join` with a single plain name. */
    function Join(name: OsStr): (p: Path)
      ensures p.FileName() == Some(name)
      ensures p.Parent() == this
    {
      Path(components + [Normal(name)])
    }

    /** The path without its last component. */
    function Parent(): Path
    {
      if components == [] then this else Path(components[..|components| - 1])
    }
  }
}
