/**
 * `RecursiveDeleteEmptyDirectories` on a directory tree: after a file leaves
 * a drop folder, directories left empty beneath the folder's root are
 * deleted, bottom-up. The root itself is never deleted.
 */
module DirTree {
  import opened Wrappers

  /**
   * A directory as `Populate` sees it. `readable` is false when `Populate`
   * fails; `deletable` says whether `Delete(true)` would succeed.
   */
  datatype Dir = Dir(name: string, files: seq<string>, subdirs: seq<Dir>, readable: bool, deletable: bool)

  /** The names of all files in the tree, depth first. */
  function Files(d: Dir): seq<string>
    decreases d, 1
  {
    d.files + FilesAll(d.subdirs)
  }

  function FilesAll(ds: seq<Dir>): seq<string>
    decreases ds, 0
  {
    if ds == [] then [] else Files(ds[0]) + FilesAll(ds[1..])
  }

  /** An empty directory that `Populate` can read and `Delete` can remove: what pruning is for. */
  predicate Removable(d: Dir) {
    d.readable && d.deletable && d.files == [] && d.subdirs == []
  }

  /** No directory that pruning descended into keeps a removable child. */
  predicate Settled(d: Dir)
    decreases d, 1
  {
    d.readable ==> SettledAll(d.subdirs)
  }

  predicate SettledAll(ds: seq<Dir>)
    decreases ds, 0
  {
    ds != [] ==> !Removable(ds[0]) && Settled(ds[0]) && SettledAll(ds[1..])
  }

  function FilesOf(o: Option<Dir>): seq<string> {
    match o
    case None => []
    case Some(d) => Files(d)
  }

  /**
   * `RecursiveDeleteEmptyDirectories(dir, isRoot)`: `None` when the directory
   * was deleted. A readable directory holding files and no subdirectories is
   * left as it is; otherwise readable directories are pruned child by child,
   * and a non-root directory left readable, deletable and empty is deleted.
   */
  function Prune(d: Dir, isRoot: bool): (r: Option<Dir>)
    ensures isRoot ==> r.Some? && r.value.name == d.name
    ensures r.None? ==> !isRoot && d.readable && d.deletable && d.files == []
    ensures d.readable && |d.files| > 0 && d.subdirs == [] ==> r == Some(d)
    ensures !d.readable ==> r == Some(d)
    ensures FilesOf(r) == Files(d)
    ensures r.Some? ==> r.value.name == d.name && r.value.files == d.files && Settled(r.value)
    ensures r.Some? && !isRoot ==> !Removable(r.value)
    decreases d, 1
  {
    if !d.readable || (|d.files| > 0 && d.subdirs == []) then Some(d)
    else
      var pruned := d.(subdirs := PruneAll(d.subdirs));
      if !isRoot && Removable(pruned) then None
      else Some(pruned)
  }

  /** Prunes each child in turn, keeping those that were not deleted. */
  function PruneAll(ds: seq<Dir>): (r: seq<Dir>)
    ensures FilesAll(r) == FilesAll(ds)
    ensures SettledAll(r)
    decreases ds, 0
  {
    if ds == [] then []
    else
      var rest := PruneAll(ds[1..]);
      match Prune(ds[0], false)
      case None => rest
      case Some(x) => [x] + rest
  }
}
