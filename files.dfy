/**
 * The file system as the three servers see it, with real file access abstracted away:
 * a map from full path to what `stat` reports about the entry and what opening it
 * read-only and reading it to the end yields.
 */
module Files {
  import opened Wrappers

  /**
   * One file-system entry: `isDirectory` is what `S_ISDIR(st.st_mode)` reports after a
   * successful `stat`, `contents` the bytes an `std::ifstream` opened in binary mode reads
   * to the end, or `None` when the stream fails to open.
   */
  datatype Entry = Entry(isDirectory: bool, contents: Option<string>)

  /** Full path (document root followed by request path) to entry; a missing key is a path `stat` cannot find. */
  type FileSystem = map<string, Entry>

  /** `stat(path, &st) == 0`. */
  predicate Exists(fs: FileSystem, path: string) {
    path in fs
  }

  /** `std::ifstream file(path, std::ios::binary)` and reading it to the end: the bytes, or `None` when the open fails. */
  function Read(fs: FileSystem, path: string): Option<string> {
    if path in fs then fs[path].contents else None
  }
}
