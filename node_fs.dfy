/** A read-only snapshot of the filesystem, and the Node `fs` queries the
    validators make against it: `existsSync`, `statSync(..).isDirectory()`,
    `accessSync(.., R_OK)` and `readdirSync`. Paths are the already
    resolved strings the validators pass in. */
module NodeFs {
  import opened Wrappers

  /** What `readdirSync` yields on a readable directory: its entry names,
      or the message of the error it throws (an I/O failure). */
  datatype Listing = Entries(names: seq<string>) | ReadError(message: string)

  datatype Node = File | Directory(readable: bool, listing: Listing)

  type FileSystem = map<string, Node>

  /** `fs.existsSync(p)`. */
  predicate Exists(fs: FileSystem, p: string) {
    p in fs
  }

  /** `fs.statSync(p).isDirectory()` on an existing path. */
  predicate IsDirectory(fs: FileSystem, p: string)
    requires Exists(fs, p)
  {
    fs[p].Directory?
  }

  /** `fs.accessSync(p, fs.constants.R_OK)` does not throw, on a directory:
      the only place the validators ask. */
  predicate CanRead(fs: FileSystem, p: string)
    requires Exists(fs, p)
  {
    fs[p].Directory? && fs[p].readable
  }

  /** The message of a system error as Node formats it: code, description,
      system call and path. */
  function SystemErrorMessage(code: string, description: string, p: string): string {
    code + ": " + description + ", scandir '" + p + "'"
  }

  /** `fs.readdirSync(p)`: the entry names, or the message of what it throws. */
  function ReadDir(fs: FileSystem, p: string): (r: Result<seq<string>, string>)
    ensures r.Success? <==> p in fs && fs[p].Directory? && fs[p].readable && fs[p].listing.Entries?
    ensures r.Success? ==> r.value == fs[p].listing.names
    ensures p in fs && fs[p].Directory? && fs[p].readable && fs[p].listing.ReadError?
      ==> r == Failure(fs[p].listing.message)
  {
    if p !in fs then Failure(SystemErrorMessage("ENOENT", "no such file or directory", p))
    else match fs[p]
      case File => Failure(SystemErrorMessage("ENOTDIR", "not a directory", p))
      case Directory(readable, listing) =>
        if !readable then Failure(SystemErrorMessage("EACCES", "permission denied", p))
        else match listing
          case Entries(names) => Success(names)
          case ReadError(message) => Failure(message)
  }

  /** `readdirSync` succeeds only where the earlier queries all succeed,
      and then, unless the listing itself fails, returns the entries. */
  lemma ReadDirNeedsReadableDirectory(fs: FileSystem, p: string)
    ensures ReadDir(fs, p).Success? ==> Exists(fs, p) && IsDirectory(fs, p) && CanRead(fs, p)
    ensures Exists(fs, p) && IsDirectory(fs, p) && CanRead(fs, p) && fs[p].listing.Entries?
      ==> ReadDir(fs, p) == Success(fs[p].listing.names)
  {
  }
}
