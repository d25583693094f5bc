// An abstract file system: what directory enumeration (std::filesystem's
// directory_iterator, or FindFirstFileEx/FindNextFile) would report.

module FileTree {

  /** One directory entry, in enumeration order. `Dir` is whatever reports as a
      directory (symbolic links to directories included), `File` a regular file,
      `Special` anything else (device, socket, dangling link). */
  datatype Entry =
    | File(name: string)
    | Dir(name: string, listing: Listing)
    | Special(name: string)

  /** What opening a directory yields: a failure (missing, not a directory,
      permission denied, vanished) or its entries. */
  datatype Listing = Unreadable | Entries(items: seq<Entry>)

  /** What a top-level input path names. */
  datatype Object = RegularFile(lines: seq<string>) | Directory(listing: Listing)

  /** Paths, as given on the command line or in an input list, to what they name. */
  type FileSystem = map<string, Object>

  /** Opening `path` as a directory: anything that is not a directory fails. */
  function Open(fs: FileSystem, path: string): (l: Listing)
    ensures l.Entries? ==> path in fs && fs[path] == Directory(l)
  {
    if path in fs && fs[path].Directory? then fs[path].listing else Unreadable
  }

  /** Names an operating system hands back: non-empty, without a separator. */
  predicate ValidName(name: string)
  {
    name != [] && '/' !in name
  }
}
