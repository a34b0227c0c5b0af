/**
 * The part of the operating system the path resolver sees: which paths are
 * directories (`os.path.isdir`) and what `os.listdir` returns for the paths
 * it can list. A path that is a directory but cannot be listed (a permission
 * error) is one in `dirs` without an entry in `children`.
 */
module Os {
  import opened Results

  datatype OsError =
    | NotListable(path: string)   // os.listdir raised (missing, not a directory, no permission)
    | FileNotFound(name: string)  // os.stat, Image.open or os.rename on a missing name
    | NoSuchDirectory(path: string) // os.chdir on a path that is not a directory

  datatype FileTree = FileTree(dirs: set<string>, children: map<string, seq<string>>)

  /** `os.path.isdir(p)`: false for the empty path, as for any name that is not a directory. */
  predicate IsDir(fs: FileTree, p: string)
  {
    p != [] && p in fs.dirs
  }

  /** `os.listdir(p)` succeeds: the empty path always raises, whatever the tree holds. */
  predicate Listable(fs: FileTree, p: string)
  {
    p != [] && p in fs.children
  }

  function ListDir(fs: FileTree, p: string): (r: Result<seq<string>, OsError>)
    ensures r.Ok? <==> p != [] && p in fs.children
    ensures r.Ok? ==> r.value == fs.children[p]
  {
    if Listable(fs, p) then Ok(fs.children[p]) else Err(NotListable(p))
  }

  /** `os.chdir(p)`: the empty path and non-directories raise. */
  function Chdir(fs: FileTree, p: string): (r: Result<string, OsError>)
    ensures r.Ok? <==> p != [] && IsDir(fs, p)
  {
    if p != [] && IsDir(fs, p) then Ok(p) else Err(NoSuchDirectory(p))
  }
}
