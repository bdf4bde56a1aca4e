/**
 * `SVR_VideoLocal_Place`: full paths of places, record removal with its
 * cascade, deleting a file together with its record, and renaming.
 */
module Places {
  import opened Wrappers
  import opened Seqs
  import opened Text
  import opened Paths
  import opened Jobs
  import opened Records
  import opened FileSystem

  /** `FullServerPath`: the folder location combined with the relative path, or null. */
  function FullServerPath(folders: seq<ImportFolder>, p: Place): (r: Option<string>)
    ensures r.None? <==>
      (|| FolderById(folders, p.folderId).None?
       || FolderById(folders, p.folderId).value.location == []
       || p.filePath == [])
    ensures r.Some? ==>
      var loc := FolderById(folders, p.folderId).value.location;
      && |loc| + |p.filePath| <= |r.value| <= |loc| + 1 + |p.filePath|
      && r.value[..|loc|] == loc
      && r.value[|r.value| - |p.filePath|..] == p.filePath
  {
    match FolderById(folders, p.folderId)
    case None => None
    case Some(f) =>
      if f.location == [] || p.filePath == [] then None
      else Some(Combine(f.location, p.filePath))
  }

  /**
   * `VideoLocal_PlaceRepository.GetFromFullPath`: the first import folder whose
   * location (with its trailing separator) prefixes the path, and the rest of
   * the path relative to it.
   */
  function FromFullPath(folders: seq<ImportFolder>, path: string): (r: Option<(ImportFolder, string)>)
    ensures r.Some? ==>
      && r.value.0 in folders
      && r.value.0.location != []
      && WithTrailingSep(r.value.0.location) + r.value.1 == path
    ensures r.None? ==>
      forall i :: 0 <= i < |folders| && folders[i].location != [] ==>
        !(WithTrailingSep(folders[i].location) <= path)
  {
    if folders == [] then None
    else
      var f := folders[0];
      var root := if f.location == [] then [] else WithTrailingSep(f.location);
      if f.location != [] && root <= path then Some((f, path[|root|..]))
      else
        var r := FromFullPath(folders[1..], path);
        assert forall i :: 1 <= i < |folders| ==> folders[i] == folders[1..][i - 1];
        r
  }

  /** Folder ids are keys. */
  predicate FolderIdsUnique(folders: seq<ImportFolder>) {
    forall i, j :: 0 <= i < j < |folders| ==> folders[i].id != folders[j].id
  }

  lemma FolderByIdOfMember(folders: seq<ImportFolder>, f: ImportFolder)
    requires FolderIdsUnique(folders) && f in folders
    ensures FolderById(folders, f.id) == Some(f)
  {
    var r := FolderById(folders, f.id);
    var i :| 0 <= i < |folders| && folders[i] == f;
    var j :| 0 <= j < |folders| && folders[j] == r.value;
  }

  /**
   * Splitting a full path into (folder, relative path) and combining them
   * again gives back the full path: the place a rename or move records
   * names the file that was renamed or moved.
   */
  lemma FullPathRoundTrip(folders: seq<ImportFolder>, path: string, placeId: int, fileId: int)
    requires FolderIdsUnique(folders)
    requires FromFullPath(folders, path).Some?
    requires FromFullPath(folders, path).value.1 != []
    ensures
      var (f, rel) := FromFullPath(folders, path).value;
      FullServerPath(folders, Place(placeId, fileId, f.id, rel)) == Some(path)
  {
    var (f, rel) := FromFullPath(folders, path).value;
    FolderByIdOfMember(folders, f);
    CombineUnderLocation(f.location, rel);
  }

  /** The store's state after one removal, and the jobs it queued. */
  datatype Removal = Removal(store: Store, jobs: seq<Command>)

  /** Why `RemoveRecord` threw: the place's `VideoLocal` is missing. */
  datatype RemoveError = MissingVideoLocal

  /** Delete the place and the duplicate entries naming it, leaving files untouched. */
  function DropPlace(s: Store, p: Place): Store {
    WithoutDupsOf(WithoutPlace(s, p.id), p.filePath, p.folderId)
  }

  /**
   * `RemoveRecord`: deletes the place and its duplicate-file entries; when the
   * place was its file's only one (`Places.Count <= 1`) the file record goes
   * too and a MyList deletion by hash and size is queued.
   */
  function RemoveRecord(s: Store, p: Place): (r: Result<Removal, RemoveError>)
    ensures r.Failure? <==> FileById(s, p.fileId).None?
    ensures r.Failure? ==> r.error == MissingVideoLocal
    ensures r.Success? ==>
      && (forall q :: q in r.value.store.places <==> q in s.places && q.id != p.id)
      && (forall d :: d in r.value.store.dups <==> d in s.dups && !DupMentions(d, p.filePath, p.folderId))
      && r.value.store.folders == s.folders
    ensures r.Success? && |PlacesOf(s, p.fileId)| <= 1 ==>
      var v := FileById(s, p.fileId).value;
      && (forall w :: w in r.value.store.files <==> w in s.files && w.id != p.fileId)
      && r.value.jobs == [DeleteFileFromMyListByHash(v.hash, v.fileSize)]
    ensures r.Success? && |PlacesOf(s, p.fileId)| > 1 ==>
      r.value.store.files == s.files && r.value.jobs == []
  {
    match FileById(s, p.fileId)
    case None => Failure(MissingVideoLocal)
    case Some(v) =>
      if |PlacesOf(s, v.id)| <= 1 then
        Success(Removal(WithoutFile(DropPlace(s, p), v.id), [DeleteFileFromMyListByHash(v.hash, v.fileSize)]))
      else
        Success(Removal(DropPlace(s, p), []))
  }

  /** Deleting one place removes exactly one entry from its file's place list. */
  lemma {:induction false} CountAfterDelete(ps: seq<Place>, p: Place)
    requires UniquePlaceIds(ps) && p in ps
    ensures |Filter(Filter(ps, (q: Place) => q.id != p.id), (q: Place) => q.fileId == p.fileId)|
         == |Filter(ps, (q: Place) => q.fileId == p.fileId)| - 1
  {
    var tail := ps[1..];
    assert UniquePlaceIds(tail) by {
      forall i, j | 0 <= i < j < |tail| ensures tail[i].id != tail[j].id {
        assert tail[i] == ps[i + 1] && tail[j] == ps[j + 1];
      }
    }
    if ps[0] == p {
      forall i | 0 <= i < |tail| ensures tail[i].id != p.id {
        assert tail[i] == ps[i + 1];
      }
      KeepAll(tail, p.id);
    } else {
      var k :| 0 <= k < |ps| && ps[k] == p;
      assert k > 0 && ps[0].id != ps[k].id;
      assert p in tail by { assert tail[k - 1] == p; }
      CountAfterDelete(tail, p);
    }
  }

  lemma {:induction false} KeepAll(ps: seq<Place>, pid: int)
    requires forall i :: 0 <= i < |ps| ==> ps[i].id != pid
    ensures Filter(ps, (q: Place) => q.id != pid) == ps
  {
    if ps != [] {
      KeepAll(ps[1..], pid);
    }
  }

  /**
   * The cascade of `RemoveRecord`: the file record is deleted exactly when the
   * removed place was its last one, and a surviving file record keeps at
   * least one place, so removal never leaves an orphaned file record.
   */
  lemma RemoveRecordCascade(s: Store, p: Place)
    requires UniquePlaceIds(s.places) && p in s.places
    requires FileById(s, p.fileId).Some?
    ensures
      var after := RemoveRecord(s, p).value.store;
      && (FileById(after, p.fileId).None? <==> |PlacesOf(s, p.fileId)| == 1)
      && (FileById(after, p.fileId).Some? ==>
            |PlacesOf(after, p.fileId)| == |PlacesOf(s, p.fileId)| - 1 >= 1)
  {
    CountAfterDelete(s.places, p);
    var after := RemoveRecord(s, p).value.store;
    assert after.places == Filter(s.places, (q: Place) => q.id != p.id);
    var v := FileById(s, p.fileId).value;
    if |PlacesOf(s, p.fileId)| > 1 {
      assert FileById(after, p.fileId) == FileById(s, p.fileId);
    }
  }

  /**
   * `RemoveRecordWithOpenTransaction`: as `RemoveRecord`, except that a missing
   * `VideoLocal` fails the `Places.Count <= 1` test (`null <= 1` is false), so
   * only the place and its duplicate entries are deleted.
   */
  function RemoveRecordInTransaction(s: Store, p: Place): (r: Removal)
    ensures forall q :: q in r.store.places <==> q in s.places && q.id != p.id
    ensures forall d :: d in r.store.dups <==> d in s.dups && !DupMentions(d, p.filePath, p.folderId)
    ensures r.store.folders == s.folders
    ensures FileById(s, p.fileId).None? ==> r.store.files == s.files && r.jobs == []
    ensures RemoveRecord(s, p).Success? ==> r == RemoveRecord(s, p).value
    ensures UniqueFileIds(s.files) ==> UniqueFileIds(r.store.files)
  {
    RemoveRecordFileIds(s, p);
    match RemoveRecord(s, p)
    case Success(rm) => rm
    case Failure(_) => Removal(DropPlace(s, p), [])
  }

  /** Removing a place keeps file ids unique: the file record goes, if at all, by filtering. */
  lemma RemoveRecordFileIds(s: Store, p: Place)
    ensures UniqueFileIds(s.files) && RemoveRecord(s, p).Success? ==> UniqueFileIds(RemoveRecord(s, p).value.store.files)
  {
    if UniqueFileIds(s.files) && FileById(s, p.fileId).Some? && |PlacesOf(s, p.fileId)| <= 1 {
      UniqueFileIdsFilter(DropPlace(s, p).files, (v: VideoLocal) => v.id != p.fileId);
    }
  }

  /** What `RemoveAndDeleteFile` did: its return value, the store after it, and whether the physical file was deleted. */
  datatype DeleteOutcome = DeleteOutcome(ok: bool, store: Store, jobs: seq<Command>, fileDeleted: bool)

  /** There is no physical file to delete: no filesystem, no path, nothing resolved, or a directory. */
  predicate NothingToDelete(s: Store, p: Place, resolve: Resolver) {
    match FolderById(s.folders, p.folderId)
    case None => true
    case Some(f) =>
      || !f.online
      || FullServerPath(s.folders, p).None?
      || !resolve(FullServerPath(s.folders, p).value).FileEntry?
  }

  /** Remove the record, mapping the exception `RemoveRecord` throws to a `false` return. */
  function RemoveCaught(s: Store, p: Place, deleted: bool): DeleteOutcome {
    match RemoveRecord(s, p)
    case Success(rm) => DeleteOutcome(true, rm.store, rm.jobs, deleted)
    case Failure(_) => DeleteOutcome(false, s, [], deleted)
  }

  /**
   * `RemoveAndDeleteFile`: when there is nothing physical to delete the record
   * is removed and the answer is true; otherwise the file is deleted first
   * (`deleteOk` says whether that worked) and a failed delete returns false
   * with the record kept.
   */
  function RemoveAndDeleteFile(s: Store, p: Place, resolve: Resolver, deleteOk: bool): (r: DeleteOutcome)
    ensures r.ok <==> FileById(s, p.fileId).Some? && (NothingToDelete(s, p, resolve) || deleteOk)
    ensures r.fileDeleted <==> !NothingToDelete(s, p, resolve) && deleteOk
    ensures !r.ok ==> r.store == s && r.jobs == []
    ensures r.ok ==> r.store == RemoveRecord(s, p).value.store && p.id !in Ids(r.store.places)
  {
    match FolderById(s.folders, p.folderId)
    case None => RemoveCaught(s, p, false)
    case Some(f) =>
      if !f.online then RemoveCaught(s, p, false)
      else match FullServerPath(s.folders, p)
        case None => RemoveCaught(s, p, false)
        case Some(full) =>
          match resolve(full)
          case Missing => RemoveCaught(s, p, false)
          case DirEntry => RemoveCaught(s, p, false)
          case FileEntry(_) =>
            if !deleteOk then DeleteOutcome(false, s, [], false)
            else RemoveCaught(s, p, true)
  }

  function Ids(ps: seq<Place>): set<int> {
    set q | q in ps :: q.id
  }

  /** `Save(place)`: the place replaces the record with its id, or is added. */
  function SavePlace(s: Store, p: Place): (r: Store)
    ensures p in r.places
    ensures forall q :: q in r.places && q != p ==> q in s.places && q.id != p.id
    ensures forall q :: q in s.places && q.id != p.id ==> q in r.places
    ensures r.files == s.files && r.folders == s.folders && r.dups == s.dups
  {
    if p.id in Ids(s.places) then
      var ps := seq(|s.places|, i requires 0 <= i < |s.places| => if s.places[i].id == p.id then p else s.places[i]);
      assert exists i :: 0 <= i < |s.places| && s.places[i].id == p.id && ps[i] == p;
      assert forall i :: 0 <= i < |s.places| && s.places[i].id != p.id ==> ps[i] == s.places[i];
      s.(places := ps)
    else
      s.(places := s.places + [p])
  }

  /** The inputs of one rename: the new name the renamer chose, the filesystem oracle and the result of `IObject.Rename`. */
  datatype RenameEnv = RenameEnv(newName: string, resolve: Resolver, renameResult: Outcome)

  /** `done` is `RenameFile`'s return value (false: try again later). */
  datatype RenameOutcome = RenameOutcome(done: bool, store: Store, place: Place, renamedOnDisk: bool)

  /** The full path a rename aims at: the new name in the file's current directory. */
  function RenameTarget(full: string, newName: string): string {
    Combine(GetDirectoryName(full), newName)
  }

  /** A rename that gets past the name and filesystem checks: a new name, and an online import folder. */
  predicate Live(s: Store, p: Place, env: RenameEnv) {
    && env.newName != []
    && FolderById(s.folders, p.folderId).Some?
    && FolderById(s.folders, p.folderId).value.online
  }

  /** A live rename whose original file resolves. */
  predicate Found(s: Store, p: Place, env: RenameEnv) {
    && Live(s, p, env)
    && FullServerPath(s.folders, p).Some?
    && !env.resolve(FullServerPath(s.folders, p).value).Missing?
  }

  /** A found rename whose target differs from the original ignoring case and does not exist yet. */
  predicate Clear(s: Store, p: Place, env: RenameEnv) {
    && Found(s, p, env)
    && var full := FullServerPath(s.folders, p).value;
    && !EqualsIgnoreCase(full, RenameTarget(full, env.newName))
    && env.resolve(RenameTarget(full, env.newName)).Missing?
  }

  /**
   * `RenameFile`: an empty new name, a missing filesystem, a target equal to
   * the current path ignoring case, or a target that already exists all end
   * the call as done without renaming; an unresolvable original or a failed
   * rename asks for a retry; after a successful rename the place records the
   * target's path relative to the import folder that contains it.
   */
  function RenameFile(s: Store, p: Place, env: RenameEnv): (r: RenameOutcome)
    ensures env.newName == [] ==> r == RenameOutcome(true, s, p, false)
    ensures env.newName != [] && !Live(s, p, env) ==> r == RenameOutcome(true, s, p, false)
    ensures Live(s, p, env) && !Found(s, p, env) ==> r == RenameOutcome(false, s, p, false)
    ensures Found(s, p, env) && !Clear(s, p, env) ==> r == RenameOutcome(true, s, p, false)
    ensures Clear(s, p, env) && env.renameResult == Error ==> r == RenameOutcome(false, s, p, false)
    ensures Clear(s, p, env) && env.renameResult == Threw ==> r == RenameOutcome(true, s, p, false)
    ensures Clear(s, p, env) && env.renameResult == Ok ==>
      && r.renamedOnDisk
      && (r.done <==> FromFullPath(s.folders, RenameTarget(FullServerPath(s.folders, p).value, env.newName)).Some?)
    ensures !r.done ==> r.store == s && r.place == p
    ensures r.renamedOnDisk ==>
      && FullServerPath(s.folders, p).Some?
      && var full := FullServerPath(s.folders, p).value;
      && var target := RenameTarget(full, env.newName);
      && !env.resolve(full).Missing?
      && !EqualsIgnoreCase(full, target)
      && env.resolve(target).Missing?
      && env.renameResult == Ok
    ensures r.place != p ==>
      && r.done && r.renamedOnDisk
      && var target := RenameTarget(FullServerPath(s.folders, p).value, env.newName);
      && FromFullPath(s.folders, target).Some?
      && r.place == p.(filePath := FromFullPath(s.folders, target).value.1)
      && r.store == SavePlace(s, r.place)
    ensures r.place == p ==> r.store == s
  {
    if env.newName == [] then RenameOutcome(true, s, p, false)
    else match FolderById(s.folders, p.folderId)
      case None => RenameOutcome(true, s, p, false)
      case Some(f) =>
        if !f.online then RenameOutcome(true, s, p, false)
        else match FullServerPath(s.folders, p)
          // resolving a null path finds nothing
          case None => RenameOutcome(false, s, p, false)
          case Some(full) =>
            if env.resolve(full).Missing? then RenameOutcome(false, s, p, false)
            else
              var target := RenameTarget(full, env.newName);
              if EqualsIgnoreCase(full, target) then RenameOutcome(true, s, p, false)
              else if !env.resolve(target).Missing? then RenameOutcome(true, s, p, false)
              else match env.renameResult
                case Error => RenameOutcome(false, s, p, false)
                // an exception is logged and the method still answers true
                case Threw => RenameOutcome(true, s, p, false)
                case Ok =>
                  match FromFullPath(s.folders, target)
                  case None => RenameOutcome(false, s, p, true)
                  case Some((_, rel)) =>
                    var q := p.(filePath := rel);
                    if q == p then RenameOutcome(true, s, p, true)
                    else RenameOutcome(true, SavePlace(s, q), q, true)
  }

  /** Splitting a path that ends in a non-empty name yields a non-empty relative path that combines back. */
  lemma TargetRoundTrip(folders: seq<ImportFolder>, dir: string, name: string, placeId: int, fileId: int)
    requires FolderIdsUnique(folders)
    requires Sep !in name && name != []
    requires FromFullPath(folders, Combine(dir, name)).Some?
    ensures
      var (f, rel) := FromFullPath(folders, Combine(dir, name)).value;
      && rel != []
      && FullServerPath(folders, Place(placeId, fileId, f.id, rel)) == Some(Combine(dir, name))
      && GetFileName(Combine(dir, name)) == name
  {
    var target := Combine(dir, name);
    var (f, rel) := FromFullPath(folders, target).value;
    FileNameOfCombine(dir, name);
    assert target[|target| - 1] != Sep by {
      assert GetFileName(target) == name;
      assert target[|target| - |name|..] == name;
    }
    assert rel != [] by {
      assert target == WithTrailingSep(f.location) + rel;
    }
    FullPathRoundTrip(folders, target, placeId, fileId);
  }

  /**
   * After a successful rename inside the place's own import folder, the
   * place's full path is the rename target and its file name is the new name.
   */
  lemma RenameRoundTrip(s: Store, p: Place, env: RenameEnv)
    requires FolderIdsUnique(s.folders)
    requires Sep !in env.newName
    requires RenameFile(s, p, env).place != p
    requires FromFullPath(s.folders, RenameTarget(FullServerPath(s.folders, p).value, env.newName)).value.0.id == p.folderId
    ensures
      var r := RenameFile(s, p, env);
      var target := RenameTarget(FullServerPath(s.folders, p).value, env.newName);
      && FullServerPath(r.store.folders, r.place) == Some(target)
      && GetFileName(target) == env.newName
  {
    var r := RenameFile(s, p, env);
    var dir := GetDirectoryName(FullServerPath(s.folders, p).value);
    TargetRoundTrip(s.folders, dir, env.newName, p.id, p.fileId);
  }
}
