/**
 * The file system as a value: the directory listings ioutil.ReadDir would
 * return, the contents of regular files and the set of directories.
 * Paths are compared as strings; the operations are the os/ioutil calls
 * the modelled code makes.
 */
module Fs {
  import opened Wrappers
  import opened Errors

  /** One os.FileInfo of a directory listing */
  datatype Entry = Entry(name: string, isDir: bool)

  datatype FileKind = Missing | RegularFile | Directory

  datatype FileSystem = FileSystem(
    listings: map<string, seq<Entry>>,
    files: map<string, string>,
    dirs: set<string>)

  /** os.Stat, reduced to whether the path exists and whether it is a directory */
  function Stat(fs: FileSystem, path: string): FileKind {
    if path in fs.files then RegularFile
    else if path in fs.dirs then Directory
    else Missing
  }

  /** ioutil.ReadDir: fails for a folder that cannot be listed */
  function ReadDir(fs: FileSystem, folder: string): (r: Result<seq<Entry>, Error>)
    ensures r.Success? <==> folder in fs.listings
  {
    if folder in fs.listings then Success(fs.listings[folder]) else Failure(NotExist(folder))
  }

  /** ioutil.ReadFile */
  function ReadFile(fs: FileSystem, path: string): (r: Result<string, Error>)
    ensures r.Success? <==> Stat(fs, path) == RegularFile
    ensures r.Success? ==> r.value == fs.files[path]
  {
    if path in fs.files then Success(fs.files[path])
    else if path in fs.dirs then Failure(IsADirectory(path))
    else Failure(NotExist(path))
  }

  /** ioutil.WriteFile; its failures are not modelled */
  function WriteFile(fs: FileSystem, path: string, content: string): (r: FileSystem)
    ensures ReadFile(r, path) == Success(content)
    ensures forall p | p != path :: ReadFile(r, p) == ReadFile(fs, p)
  {
    fs.(files := fs.files[path := content])
  }

  /** os.MkdirAll: succeeds when the path is or becomes a directory, fails when it is a file */
  function MkdirAll(fs: FileSystem, path: string): (r: Result<FileSystem, Error>)
    ensures r.Success? <==> Stat(fs, path) != RegularFile
    ensures r.Success? ==> Stat(r.value, path) == Directory && r.value.files == fs.files
  {
    if path in fs.files then Failure(NotADirectory(path))
    else Success(fs.(dirs := fs.dirs + {path}))
  }

  /**
   * ioutil.CopyFile of this repository: the source is opened first, then
   * the target is created exclusively, so an existing target is an error
   * and is never overwritten; copying from a directory fails once the
   * target is open.
   */
  function CopyFile(fs: FileSystem, src: string, dst: string): (r: Result<FileSystem, Error>)
    ensures r.Success? <==> Stat(fs, src) == RegularFile && Stat(fs, dst) == Missing
    ensures Stat(fs, src) == Missing ==> r == Failure(NotExist(src))
    ensures Stat(fs, src) != Missing && Stat(fs, dst) != Missing ==> r == Failure(AlreadyExists(dst))
    ensures r.Success? ==> r.value == WriteFile(fs, dst, fs.files[src])
  {
    if Stat(fs, src) == Missing then Failure(NotExist(src))
    else if Stat(fs, dst) != Missing then Failure(AlreadyExists(dst))
    else if Stat(fs, src) == Directory then Failure(IsADirectory(src))
    else Success(WriteFile(fs, dst, fs.files[src]))
  }
}
