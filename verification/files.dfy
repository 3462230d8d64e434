/** Directories on disk, as both stores and the message board use them. */
module Files {
  import opened Wrappers

  /** A regular file, or a folder, of which only matters whether it is empty. */
  datatype Entry = File(content: string) | Folder(empty: bool)

  type Directory = map<string, Entry>

  predicate IsFileIn(d: Directory, name: string) {
    name in d && d[name].File?
  }

  predicate IsFolderIn(d: Directory, name: string) {
    name in d && d[name].Folder?
  }

  /** What reading a path into a string gives. A folder exists and opens, but yields no
      character. */
  function ContentAt(d: Directory, name: string): Option<string> {
    if name !in d then None
    else match d[name]
      case File(content) => Some(content)
      case Folder(_) => Some("")
  }

  /** A name of one path component: not empty, without slash, not "." and not "..". */
  predicate IsPlainName(name: string) {
    name != "" && name != "." && name != ".." && forall i :: 0 <= i < |name| ==> name[i] != '/'
  }
}
