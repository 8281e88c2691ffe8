/** The values the archiver works on: file contents, permission bits, the
    entries a directory listing yields, and the abstract filesystem. */
module Files {

  newtype byte = x: int | 0 <= x < 256

  /** Permission bits. The model never interprets them. */
  datatype Mode = Mode(bits: nat)

  /** The mode `os.Create` gives a file it creates: 0666 (before the umask). */
  const CreateMode: Mode := Mode(0x1B6)

  /** A regular file: its bytes and its permission bits. */
  datatype File = File(data: seq<byte>, mode: Mode)

  /** The abstract filesystem: the regular files, by full path. */
  type FileMap = map<string, File>

  /** One item of a directory listing (Go's `os.FileInfo`). */
  datatype Entry = Entry(name: string, isDir: bool, mode: Mode)

  datatype Option<T> = None | Some(value: T)

  /** Two maps hold the same thing (or nothing) at every path of `paths`. */
  ghost predicate AgreeOn(f: FileMap, g: FileMap, paths: set<string>)
  {
    forall p :: p in paths ==> (p in f <==> p in g) && (p in f ==> f[p] == g[p])
  }

  /** `g` differs from `f` at most at the paths in `touched`. */
  ghost predicate ChangedOnlyAt(f: FileMap, g: FileMap, touched: set<string>)
  {
    forall p :: p !in touched ==> (p in f <==> p in g) && (p in f ==> f[p] == g[p])
  }
}
