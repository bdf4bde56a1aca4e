/**
 * The persistent records the core reads and writes: import folders, video
 * files (`VideoLocal`), their physical places (`VideoLocal_Place`) and
 * duplicate-file entries. The record store is a value; a transactional block
 * of the source is one function from store to store.
 */
module Records {
  import opened Wrappers
  import opened Seqs

  /** An import folder. `online` is false when its `FileSystem` is null. */
  datatype ImportFolder = ImportFolder(
    id: int,
    location: string,
    cloudId: Option<int>,
    isDropSource: bool,
    isDropDestination: bool,
    online: bool)

  /** A known file, identified by its content hash; `isIgnored` files are left out of scans. */
  datatype VideoLocal = VideoLocal(id: int, hash: string, fileSize: int, myListId: int, isIgnored: bool)

  /** One physical copy of a `VideoLocal`: a path relative to an import folder. */
  datatype Place = Place(id: int, fileId: int, folderId: int, filePath: string)

  /** A pair of places the server has noticed hold the same content. */
  datatype DuplicateFile = DuplicateFile(id: int, folder1: int, path1: string, folder2: int, path2: string)

  datatype Store = Store(
    folders: seq<ImportFolder>,
    files: seq<VideoLocal>,
    places: seq<Place>,
    dups: seq<DuplicateFile>)

  /** Place ids are keys. */
  predicate UniquePlaceIds(ps: seq<Place>) {
    KeysUnique(ps, (q: Place) => q.id)
  }

  /** Dropping the first place keeps place ids unique, and no later place shares its id. */
  lemma UniquePlaceIdsTail(ps: seq<Place>)
    requires UniquePlaceIds(ps) && ps != []
    ensures UniquePlaceIds(ps[1..])
    ensures forall q :: q in ps[1..] ==> q.id != ps[0].id
  {
    KeysUniqueTail(ps, (q: Place) => q.id);
  }

  /** File ids are keys. */
  predicate UniqueFileIds(vs: seq<VideoLocal>) {
    KeysUnique(vs, (v: VideoLocal) => v.id)
  }

  /** Filtering the file records keeps their ids unique. */
  lemma UniqueFileIdsFilter(vs: seq<VideoLocal>, p: VideoLocal -> bool)
    requires UniqueFileIds(vs)
    ensures UniqueFileIds(Filter(vs, p))
  {
    FilterKeysUnique(vs, p, (v: VideoLocal) => v.id);
  }

  /** Import folder ids are keys. */
  predicate UniqueFolderIds(fs: seq<ImportFolder>) {
    KeysUnique(fs, (f: ImportFolder) => f.id)
  }

  /** Record ids are keys: no two records of one kind share an id. */
  predicate UniqueIds(s: Store) {
    UniqueFolderIds(s.folders) && UniqueFileIds(s.files) && UniquePlaceIds(s.places)
  }

  function FolderById(folders: seq<ImportFolder>, id: int): (r: Option<ImportFolder>)
    ensures r.Some? ==> r.value in folders && r.value.id == id
    ensures r.None? ==> forall i :: 0 <= i < |folders| ==> folders[i].id != id
  {
    First(folders, (f: ImportFolder) => f.id == id)
  }

  function FileById(s: Store, id: int): (r: Option<VideoLocal>)
    ensures r.Some? ==> r.value in s.files && r.value.id == id
    ensures r.None? ==> forall i :: 0 <= i < |s.files| ==> s.files[i].id != id
  {
    First(s.files, (v: VideoLocal) => v.id == id)
  }

  /** `VideoLocal.Places`: the places of one file, in store order. */
  function PlacesOf(s: Store, fileId: int): (r: seq<Place>)
    ensures forall q :: q in r <==> q in s.places && q.fileId == fileId
  {
    Filter(s.places, (p: Place) => p.fileId == fileId)
  }

  function WithoutPlace(s: Store, placeId: int): (r: Store)
    ensures forall p :: p in r.places <==> p in s.places && p.id != placeId
    ensures r.files == s.files && r.folders == s.folders && r.dups == s.dups
  {
    s.(places := Filter(s.places, (p: Place) => p.id != placeId))
  }

  function WithoutFile(s: Store, fileId: int): (r: Store)
    ensures forall v :: v in r.files <==> v in s.files && v.id != fileId
    ensures r.places == s.places && r.folders == s.folders && r.dups == s.dups
  {
    s.(files := Filter(s.files, (v: VideoLocal) => v.id != fileId))
  }

  /** `DuplicateFile.GetByFilePathAndImportFolder`: either side names the place. */
  predicate DupMentions(d: DuplicateFile, filePath: string, folderId: int) {
    (d.folder1 == folderId && d.path1 == filePath) || (d.folder2 == folderId && d.path2 == filePath)
  }

  function WithoutDupsOf(s: Store, filePath: string, folderId: int): (r: Store)
    ensures forall d :: d in r.dups <==> d in s.dups && !DupMentions(d, filePath, folderId)
    ensures r.places == s.places && r.files == s.files && r.folders == s.folders
  {
    s.(dups := Filter(s.dups, (d: DuplicateFile) => !DupMentions(d, filePath, folderId)))
  }
}
