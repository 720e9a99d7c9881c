/** The two directory trees the scanner reads, as values. A file is known
    only by what the operations on it report: stat fails with an error other
    than "does not exist", open fails, or reading delivers some data and then
    possibly fails. A path that is not in `files` is one that stat reports as
    not existing; a directory that is not in `dirs` is one that cannot be
    listed. */
module FileSystem {
  import opened Optional

  datatype Op = Stat | Open | Read | ReadDir

  /** An error returned by an operation on a path. */
  datatype Error = Error(op: Op, path: string)

  datatype File =
    | StatFails
    | OpenFails
    | Content(data: string, readFails: bool)

  datatype DirEntry = DirEntry(name: string, isDir: bool)

  datatype Root = Root(files: map<string, File>, dirs: map<string, seq<DirEntry>>)

  /** fs.ReadFile: the whole content, or nothing on any failure. */
  function ReadFile(root: Root, path: string): Option<string> {
    if path in root.files && root.files[path].Content? && !root.files[path].readFails
    then Some(root.files[path].data)
    else None
  }

  /** One call of the fs.WalkDir callback: the path visited, whether it is a
      directory, and whether the walk passed an error for it. */
  datatype WalkEntry = WalkEntry(path: string, isDir: bool, failed: bool)

}
