/**
 * The storage abstraction as an oracle. `Resolve` answers what a full path
 * names; each mutating call is an input saying how that call went.
 */
module FileSystem {

  /** What `IFileSystem.Resolve(path)` finds: nothing (not ok), a file or a directory. */
  datatype Entry = Missing | FileEntry(size: int) | DirEntry

  type Resolver = string -> Entry

  /** How one filesystem call ended: ok, an error result, or an exception. */
  datatype Outcome = Ok | Error | Threw
}
