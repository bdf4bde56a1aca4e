/**
 * `MoveFileIfRequired`: moving a file out of a drop folder into the drop
 * destination, next to the other files of its series, and the
 * `RenameAndMoveAsRequired` ladder built from it and `RenameIfRequired`.
 */
module Moving {
  import opened Wrappers
  import opened Seqs
  import opened Text
  import opened Paths
  import opened Jobs
  import opened Records
  import opened FileSystem
  import opened Places
  import opened Retry

  /**
   * An episode of the series as the sibling search sees it: the anime ids of
   * its file cross references and the ids of its video files.
   */
  datatype Episode = Episode(xrefAnime: seq<int>, videos: seq<int>)

  /** A series: its display name and its episodes, latest air date first. */
  datatype Series = Series(name: string, episodes: seq<Episode>)

  /** Everything one move attempt reads from outside the record store. */
  datatype MoveEnv = MoveEnv(
    resolve: Resolver,
    /** `Path.GetPathRoot`. */
    pathRoot: string -> string,
    /** The available size `Quota()` reports for a folder, when the call succeeds. */
    quota: int -> Option<int>,
    /** Anime ids of the file's episode cross references, in order. */
    xrefAnime: seq<int>,
    /** `AnimeSeries.GetByAnimeID`. */
    seriesOf: int -> Option<Series>,
    /** `Utils.RemoveInvalidFolderNameCharacters`. */
    folderName: string -> string,
    /** `Utils.GetPossibleSubtitleFiles` of the file's original full path. */
    subtitles: seq<string>,
    /** How deleting the source file went, when the destination already exists. */
    deleteResult: Outcome,
    /** How moving the source file went. */
    moveResult: Outcome)

  /** Filesystem changes a move attempt makes, in order. */
  datatype FsAction =
    | CreateDirectory(path: string)
    | DeleteFile(path: string)
    | MoveFile(from: string, to: string)
    | DeleteSubtitle(path: string)
    | MoveSubtitle(from: string, to: string)
    | PruneEmptyDirectories(root: string)

  /**
   * `done` is the method's answer (false: try again later); `target` is the
   * full path the file was to be moved to, once every guard before the
   * move had passed.
   */
  datatype MoveOutcome = MoveOutcome(
    done: bool, store: Store, place: Place, jobs: seq<Command>, actions: seq<FsAction>, target: Option<string>)

  /**
   * A local folder on another drive than the drop folder is skipped when its
   * quota reports less room than the file needs.
   */
  predicate HasRoom(f: ImportFolder, drop: ImportFolder, size: int, env: MoveEnv) {
    !(&& f.cloudId.None?
      && !(env.pathRoot(f.location) <= drop.location)
      && env.quota(f.id).Some?
      && env.quota(f.id).value < size)
  }

  /** A folder the file may be moved to. */
  predicate Eligible(f: ImportFolder, drop: ImportFolder, size: int, env: MoveEnv) {
    && f.cloudId == drop.cloudId
    && f.isDropDestination
    && !f.isDropSource
    && f.online
    && !env.resolve(f.location).Missing?
    && HasRoom(f, drop, size, env)
  }

  /** The default destination: the first eligible folder in store order. */
  function DestinationFolder(folders: seq<ImportFolder>, drop: ImportFolder, size: int, env: MoveEnv): (r: Option<ImportFolder>)
    ensures r.Some? ==>
      exists i :: 0 <= i < |folders| && folders[i] == r.value
        && Eligible(folders[i], drop, size, env)
        && forall j :: 0 <= j < i ==> !Eligible(folders[j], drop, size, env)
    ensures r.None? ==> forall i :: 0 <= i < |folders| ==> !Eligible(folders[i], drop, size, env)
  {
    if folders == [] then None
    else if Eligible(folders[0], drop, size, env) then
      assert folders[0] == folders[0];
      Some(folders[0])
    else
      var r := DestinationFolder(folders[1..], drop, size, env);
      assert forall i :: 1 <= i < |folders| ==> folders[i] == folders[1..][i - 1];
      if r.Some? then
        var i :| 0 <= i < |folders[1..]| && folders[1..][i] == r.value
          && Eligible(folders[1..][i], drop, size, env)
          && forall j :: 0 <= j < i ==> !Eligible(folders[1..][j], drop, size, env);
        assert folders[i + 1] == r.value;
        r
      else r
  }

  /**
   * The scan of an episode's cross references, carrying the first anime id
   * seen: the episode is a crossover when a later reference names another.
   */
  function CrossoverFrom(animeId: Option<int>, ids: seq<int>): (r: bool)
    ensures animeId.Some? ==> (r <==> exists i :: 0 <= i < |ids| && ids[i] != animeId.value)
    ensures animeId.None? ==> (r <==> exists i :: 0 <= i < |ids| && ids[i] != ids[0])
    decreases ids
  {
    if ids == [] then false
    else match animeId
      case None =>
        var r := CrossoverFrom(Some(ids[0]), ids[1..]);
        assert forall i :: 1 <= i < |ids| ==> ids[i] == ids[1..][i - 1];
        r
      case Some(a) =>
        var rest := CrossoverFrom(animeId, ids[1..]);
        assert forall i :: 1 <= i < |ids| ==> ids[i] == ids[1..][i - 1];
        ids[0] != a || rest
  }

  /** An episode belonging to more than one anime is skipped by the sibling search. */
  function Crossover(ids: seq<int>): (r: bool)
    ensures r <==> exists i, j :: 0 <= i < |ids| && 0 <= j < |ids| && ids[i] != ids[j]
  {
    var r := CrossoverFrom(None, ids);
    assert r ==> ids[0] != ids[0] || exists i :: 0 <= i < |ids| && ids[i] != ids[0];
    r
  }

  /** The fixed inputs of the sibling search. */
  datatype Search = Search(s: Store, resolve: Resolver, self: int, cloud: Option<int>, currentDir: string)

  predicate InCloud(s: Store, q: Place, cloud: Option<int>) {
    FolderById(s.folders, q.folderId).Some? && FolderById(s.folders, q.folderId).value.cloudId == cloud
  }

  /** Some place of the video lies in a non-drop-source folder of the destination's cloud. */
  predicate HasSettledPlace(s: Store, vid: int, cloud: Option<int>) {
    exists q :: q in PlacesOf(s, vid) && InCloud(s, q, cloud) && !FolderById(s.folders, q.folderId).value.isDropSource
  }

  /** The directory of the video's first place in the destination's cloud. */
  function VideoDir(s: Store, vid: int, cloud: Option<int>): Option<string> {
    match First(PlacesOf(s, vid), (q: Place) => InCloud(s, q, cloud))
    case None => None
    case Some(q) =>
      match FullServerPath(s.folders, q)
      case None => None
      case Some(full) => Some(GetDirectoryName(full))
  }

  /** A video the search may take its directory from. */
  predicate Considered(z: Search, vid: int) {
    vid != z.self && HasSettledPlace(z.s, vid, z.cloud) && VideoDir(z.s, vid, z.cloud).Some?
  }

  /** A directory the file may join: an existing directory other than its current one. */
  predicate Acceptable(z: Search, dir: string) {
    z.resolve(dir) == DirEntry && !EqualsIgnoreCase(dir, z.currentDir)
  }

  /** A video whose directory the search would take. */
  predicate Offers(z: Search, vid: int) {
    Considered(z, vid) && Acceptable(z, VideoDir(z.s, vid, z.cloud).value)
  }

  /** The inner loop over one episode's videos: the directory of the first video that offers one. */
  function SiblingInVideos(z: Search, vids: seq<int>): (r: Option<string>)
    ensures r.Some? ==>
      && Acceptable(z, r.value)
      && exists v :: v in vids && Considered(z, v) && VideoDir(z.s, v, z.cloud) == r
    ensures r.None? ==> forall v :: v in vids ==> !Offers(z, v)
  {
    if vids == [] then None
    else if Offers(z, vids[0]) then
      VideoDir(z.s, vids[0], z.cloud)
    else SiblingInVideos(z, vids[1..])
  }

  /** The inner loop answers with the first video that offers a directory. */
  lemma {:induction false} SiblingInVideosFirst(z: Search, vids: seq<int>, i: nat)
    requires i < |vids| && Offers(z, vids[i])
    requires forall j :: 0 <= j < i ==> !Offers(z, vids[j])
    ensures SiblingInVideos(z, vids) == VideoDir(z.s, vids[i], z.cloud)
  {
    if i > 0 {
      assert !Offers(z, vids[0]);
      assert vids[i] == vids[1..][i - 1];
      forall j | 0 <= j < i - 1 ensures !Offers(z, vids[1..][j]) {
        assert vids[1..][j] == vids[j + 1];
      }
      SiblingInVideosFirst(z, vids[1..], i - 1);
    }
  }

  /**
   * The sibling search: the directory of another file of the series in the
   * destination's cloud, taken from the latest episode that has one,
   * skipping crossover episodes, the file itself and its current directory.
   */
  function SiblingDirectory(z: Search, eps: seq<Episode>): (r: Option<string>)
    ensures r.Some? ==>
      && Acceptable(z, r.value)
      && exists i, v :: 0 <= i < |eps| && v in eps[i].videos && !Crossover(eps[i].xrefAnime)
           && Considered(z, v) && VideoDir(z.s, v, z.cloud) == r
    ensures r.None? ==>
      forall i, v ::
        (0 <= i < |eps| && v in eps[i].videos && !Crossover(eps[i].xrefAnime) && Considered(z, v)) ==>
        !Acceptable(z, VideoDir(z.s, v, z.cloud).value)
  {
    if eps == [] then None
    else
      var rest := SiblingDirectory(z, eps[1..]);
      assert forall i :: 1 <= i < |eps| ==> eps[i] == eps[1..][i - 1];
      if Crossover(eps[0].xrefAnime) then rest
      else match SiblingInVideos(z, eps[0].videos)
        case Some(d) => Some(d)
        case None => rest
  }

  /** An episode the search passes over: a crossover, or one none of whose videos offers a directory. */
  predicate PassedOver(z: Search, e: Episode) {
    Crossover(e.xrefAnime) || SiblingInVideos(z, e.videos).None?
  }

  /** An episode the search passes over hands it on to the next one. */
  lemma SiblingDirectorySkip(z: Search, eps: seq<Episode>)
    requires eps != [] && PassedOver(z, eps[0])
    ensures SiblingDirectory(z, eps) == SiblingDirectory(z, eps[1..])
  {
  }

  /** An episode the search does not pass over supplies its answer. */
  lemma SiblingDirectoryTake(z: Search, eps: seq<Episode>)
    requires eps != [] && !PassedOver(z, eps[0])
    ensures SiblingDirectory(z, eps) == SiblingInVideos(z, eps[0].videos)
  {
  }

  /** The episode loop answers with the first non-crossover episode whose videos offer a directory. */
  lemma SiblingDirectoryFirst(z: Search, eps: seq<Episode>, i: nat)
    requires i < |eps| && !PassedOver(z, eps[i])
    requires forall j :: 0 <= j < i ==> PassedOver(z, eps[j])
    ensures SiblingDirectory(z, eps) == SiblingInVideos(z, eps[i].videos)
  {
    var k := 0;
    while k < i
      invariant k <= i
      invariant SiblingDirectory(z, eps) == SiblingDirectory(z, eps[k..])
    {
      var rest := eps[k..];
      assert rest[0] == eps[k] && rest[1..] == eps[k + 1..];
      SiblingDirectorySkip(z, rest);
      k := k + 1;
    }
    assert eps[i..][0] == eps[i];
    SiblingDirectoryTake(z, eps[i..]);
  }

  /** A folder a place scan stops at: one of the cloud, and not a drop source when `settled`. */
  predicate Hits(f: ImportFolder, cloud: Option<int>, settled: bool) {
    f.cloudId == cloud && (!settled || !f.isDropSource)
  }

  /**
   * Whether a scan of places that reads each place's `ImportFolder` (the
   * `Any` and `FirstOrDefault` of the sibling search) reaches a place whose
   * folder the store does not know before it hits: that folder is null, and
   * reading its cloud id throws.
   */
  function ScanThrows(s: Store, ps: seq<Place>, cloud: Option<int>, settled: bool): (r: bool)
    ensures r <==> exists i :: StopsUnknownAt(s, ps, cloud, settled, i)
  {
    if ps == [] then false
    else match FolderById(s.folders, ps[0].folderId)
      case None =>
        assert StopsUnknownAt(s, ps, cloud, settled, 0);
        true
      case Some(f) =>
        var rest := ScanThrows(s, ps[1..], cloud, settled);
        assert forall i :: 1 <= i < |ps| ==> ps[i] == ps[1..][i - 1];
        forall i | StopsUnknownAt(s, ps, cloud, settled, i) ensures !Hits(f, cloud, settled) && rest {
          assert StopsUnknownAt(s, ps[1..], cloud, settled, i - 1);
        }
        if rest then
          var i :| StopsUnknownAt(s, ps[1..], cloud, settled, i);
          assert !Hits(f, cloud, settled) ==> StopsUnknownAt(s, ps, cloud, settled, i + 1);
          !Hits(f, cloud, settled)
        else false
  }

  /** The scan stops at position `i` on an unknown folder: every place before it is known and missed. */
  predicate StopsUnknownAt(s: Store, ps: seq<Place>, cloud: Option<int>, settled: bool, i: int) {
    && 0 <= i < |ps|
    && FolderById(s.folders, ps[i].folderId).None?
    && forall j :: 0 <= j < i ==>
         FolderById(s.folders, ps[j].folderId).Some? && !Hits(FolderById(s.folders, ps[j].folderId).value, cloud, settled)
  }

  /**
   * Whether the inner loop over an episode's filtered videos throws: it
   * reaches a video other than the file's own whose `FirstOrDefault` over
   * its places throws, before a video offers a directory.
   */
  function InVideosThrows(z: Search, vids: seq<int>): bool {
    if vids == [] then false
    else if vids[0] != z.self && HasSettledPlace(z.s, vids[0], z.cloud)
         && ScanThrows(z.s, PlacesOf(z.s, vids[0]), z.cloud, false) then true
    else if Offers(z, vids[0]) then false
    else InVideosThrows(z, vids[1..])
  }

  /**
   * Whether the sibling search throws before it finds a directory. For each
   * episode that is not a crossover, the `Where(...).ToList()` first runs
   * `Any` over the places of every video of the episode, the file's own
   * included; then the inner loop runs. The catch of `MoveFileIfRequired`
   * ends the attempt as done.
   */
  function SearchThrows(z: Search, eps: seq<Episode>): bool {
    if eps == [] then false
    else if Crossover(eps[0].xrefAnime) then SearchThrows(z, eps[1..])
    else if exists v :: v in eps[0].videos && ScanThrows(z.s, PlacesOf(z.s, v), z.cloud, true) then true
    else if InVideosThrows(z, eps[0].videos) then true
    else if SiblingInVideos(z, eps[0].videos).Some? then false
    else SearchThrows(z, eps[1..])
  }

  /** With every place in a folder the store knows, the sibling search never throws. */
  lemma {:induction false} KnownFoldersNeverThrow(z: Search, eps: seq<Episode>)
    requires forall q :: q in z.s.places ==> FolderById(z.s.folders, q.folderId).Some?
    ensures !SearchThrows(z, eps)
  {
    forall v, cloud: Option<int>, settled: bool ensures !ScanThrows(z.s, PlacesOf(z.s, v), cloud, settled) {
      var ps := PlacesOf(z.s, v);
      forall i | 0 <= i < |ps| ensures FolderById(z.s.folders, ps[i].folderId).Some? {
        assert ps[i] in z.s.places;
      }
    }
    if eps != [] {
      NoVideoThrows(z, eps[0].videos);
      KnownFoldersNeverThrow(z, eps[1..]);
    }
  }

  /** The inner loop never throws when no place scan does. */
  lemma {:induction false} NoVideoThrows(z: Search, vids: seq<int>)
    requires forall v :: !ScanThrows(z.s, PlacesOf(z.s, v), z.cloud, false)
    ensures !InVideosThrows(z, vids)
  {
    if vids != [] {
      NoVideoThrows(z, vids[1..]);
    }
  }

  /** Where the file goes, and whether that directory had to be created. */
  datatype Target = Target(dir: string, created: bool)

  /**
   * The fallback when no sibling directory exists: a folder named after the
   * series under the destination, created when missing; none when the
   * destination cannot be resolved or the name is taken by a file.
   */
  function SeriesDirectory(dest: ImportFolder, seriesName: string, env: MoveEnv): (r: Option<Target>)
    ensures r.Some? ==> r.value.dir == Combine(dest.location, env.folderName(seriesName))
    ensures r.Some? ==> (r.value.created <==> env.resolve(r.value.dir).Missing?)
    ensures r.Some? && r.value.created ==> env.resolve(dest.location) == DirEntry
    ensures r.None? <==>
      var dir := Combine(dest.location, env.folderName(seriesName));
      env.resolve(dir).FileEntry? || (env.resolve(dir).Missing? && !env.resolve(dest.location).DirEntry?)
  {
    var dir := Combine(dest.location, env.folderName(seriesName));
    match env.resolve(dir)
    case DirEntry => Some(Target(dir, false))
    case FileEntry(_) => None
    case Missing =>
      // a destination that resolves to a file fails the directory cast, which the catch-all absorbs
      if env.resolve(dest.location) == DirEntry then Some(Target(dir, true)) else None
  }

  /** Moves of the subtitle files that exist, or their deletion when the target directory already has one by that name. */
  function SubtitleActions(subs: seq<string>, newFull: string, resolve: Resolver): (r: seq<FsAction>)
    ensures |r| <= |subs|
    ensures forall i :: 0 <= i < |r| ==>
      && (r[i].DeleteSubtitle? || r[i].MoveSubtitle?)
      && var sub := if r[i].DeleteSubtitle? then r[i].path else r[i].from;
      && var newSub := Combine(GetDirectoryName(newFull), GetFileName(sub));
      && sub in subs && resolve(sub).FileEntry?
      && (r[i].DeleteSubtitle? <==> resolve(newSub).FileEntry?)
      && (r[i].MoveSubtitle? ==> r[i].to == newSub)
  {
    if subs == [] then []
    else
      var rest := SubtitleActions(subs[1..], newFull, resolve);
      var sub := subs[0];
      if !resolve(sub).FileEntry? then rest
      else
        var newSub := Combine(GetDirectoryName(newFull), GetFileName(sub));
        (if resolve(newSub).FileEntry? then [DeleteSubtitle(sub)] else [MoveSubtitle(sub, newSub)]) + rest
  }

  /** Empty directories are pruned under the drop folder when it resolves to a directory. */
  function PruneDrop(drop: ImportFolder, resolve: Resolver): seq<FsAction> {
    if resolve(drop.location) == DirEntry then [PruneEmptyDirectories(drop.location)] else []
  }

  /**
   * What every move attempt guarantees about a file at `full`: it is never
   * moved onto its own path, a delete happens only when the target exists
   * and a move only when it does not, and the records change only by
   * re-pointing the moved place or by removing the deleted file's record.
   */
  predicate Consistent(s: Store, p: Place, env: MoveEnv, full: string, r: MoveOutcome) {
    && (!r.done ==> r.store == s && r.place == p && r.jobs == [])
    && (r.target.Some? ==>
        && !EqualsIgnoreCase(r.target.value, full)
        && GetFileName(r.target.value) == GetFileName(full)
        && FromFullPath(s.folders, r.target.value).Some?)
    && (forall a :: a in r.actions && a.DeleteFile? ==>
        a.path == full && r.target.Some? && !env.resolve(r.target.value).Missing?)
    && (forall a :: a in r.actions && a.MoveFile? ==>
        a.from == full && r.target == Some(a.to) && env.resolve(a.to).Missing?)
    && (r.place != p ==>
        && r.done && r.target.Some? && MoveFile(full, r.target.value) in r.actions
        && r.place == p.(folderId := FromFullPath(s.folders, r.target.value).value.0.id,
                         filePath := FromFullPath(s.folders, r.target.value).value.1)
        && r.store == SavePlace(s, r.place))
    && (r.store != s && r.place == p ==>
        && DeleteFile(full) in r.actions
        && RemoveRecord(s, p).Success?
        && r.store == RemoveRecord(s, p).value.store)
  }

  /** The target already exists: the source is deleted and its record removed instead of moving it. */
  function DeleteInstead(s: Store, p: Place, env: MoveEnv, full: string, drop: ImportFolder, newFull: string, pre: seq<FsAction>): (r: MoveOutcome)
    requires forall a :: a in pre ==> a.CreateDirectory?
    ensures r.place == p && r.target == Some(newFull)
    ensures !r.done <==> env.deleteResult == Error
    ensures !r.done ==> r.store == s && r.jobs == [] && r.actions == pre
    ensures forall a :: a in r.actions ==> !a.MoveFile? && (a.DeleteFile? ==> a.path == full)
    ensures forall a :: a in r.actions && a.CreateDirectory? ==> a in pre
    ensures r.store != s ==>
      && DeleteFile(full) in r.actions
      && RemoveRecord(s, p).Success?
      && r.store == RemoveRecord(s, p).value.store
  {
    match env.deleteResult
    case Error => MoveOutcome(false, s, p, [], pre, Some(newFull))
    case Threw => MoveOutcome(true, s, p, [], pre, Some(newFull))
    case Ok =>
      var deleted := pre + [DeleteFile(full)];
      match RemoveRecord(s, p)
      // removing the record of a missing file throws; the catch absorbs it
      case Failure(_) => MoveOutcome(true, s, p, [], deleted, Some(newFull))
      case Success(rm) => MoveOutcome(true, rm.store, p, rm.jobs, deleted + PruneDrop(drop, env.resolve), Some(newFull))
  }

  /** The target is free: the file is moved, the place re-pointed, and its subtitles follow it. */
  function MoveThere(s: Store, p: Place, env: MoveEnv, full: string, drop: ImportFolder, newFull: string, dest: (ImportFolder, string), pre: seq<FsAction>): (r: MoveOutcome)
    requires forall a :: a in pre ==> a.CreateDirectory?
    ensures r.target == Some(newFull)
    ensures !r.done <==> env.moveResult == Error
    ensures !r.done ==> r.actions == pre
    ensures r.jobs == []
    ensures forall a :: a in r.actions ==> !a.DeleteFile? && (a.MoveFile? ==> a == MoveFile(full, newFull))
    ensures forall a :: a in r.actions && a.CreateDirectory? ==> a in pre
    ensures r.place != p ==>
      && r.done && MoveFile(full, newFull) in r.actions
      && r.place == p.(folderId := dest.0.id, filePath := dest.1)
      && r.store == SavePlace(s, r.place)
    ensures r.place == p ==> r.store == s
  {
    match env.moveResult
    case Error => MoveOutcome(false, s, p, [], pre, Some(newFull))
    case Threw => MoveOutcome(true, s, p, [], pre, Some(newFull))
    case Ok =>
      var q := p.(folderId := dest.0.id, filePath := dest.1);
      var subs := SubtitleActions(env.subtitles, newFull, env.resolve);
      var acts := pre + [MoveFile(full, newFull)] + subs + PruneDrop(drop, env.resolve);
      assert forall a :: a in acts ==> a in pre || a == MoveFile(full, newFull) || a in subs || a in PruneDrop(drop, env.resolve);
      if q == p then MoveOutcome(true, s, p, [], acts, Some(newFull))
      else MoveOutcome(true, SavePlace(s, q), q, [], acts, Some(newFull))
  }

  /**
   * A move into `dir` that asks for a retry: the target lies inside an
   * import folder and is not the source itself, and deleting the source (the
   * target exists) or moving it (the target is free) failed.
   */
  predicate Stalls(s: Store, env: MoveEnv, full: string, dir: string) {
    var newFull := Combine(dir, GetFileName(full));
    && FromFullPath(s.folders, newFull).Some?
    && !EqualsIgnoreCase(newFull, full)
    && (if env.resolve(newFull).Missing? then env.moveResult == Error else env.deleteResult == Error)
  }

  /**
   * The end of a move attempt, once the target directory is known: locate
   * the new full path inside the import folders, refuse to move the file
   * onto itself, delete the source when the target already exists, and
   * otherwise move it and point the place at its new folder and path.
   */
  function MoveInto(s: Store, p: Place, env: MoveEnv, full: string, drop: ImportFolder, dir: string, pre: seq<FsAction>): (r: MoveOutcome)
    requires forall a :: a in pre ==> a.CreateDirectory?
    ensures Consistent(s, p, env, full, r)
    ensures !r.done <==> Stalls(s, env, full, dir)
    ensures r.target.Some? ==> r.target.value == Combine(dir, GetFileName(full))
    ensures forall a :: a in r.actions && a.CreateDirectory? ==> a in pre
  {
    var newFull := Combine(dir, GetFileName(full));
    FileNameOfCombine(dir, GetFileName(full));
    match FromFullPath(s.folders, newFull)
    case None => MoveOutcome(true, s, p, [], pre, None)
    case Some(dest) =>
      if EqualsIgnoreCase(newFull, full) then MoveOutcome(true, s, p, [], pre, None)
      else if !env.resolve(newFull).Missing? then DeleteInstead(s, p, env, full, drop, newFull, pre)
      else MoveThere(s, p, env, full, drop, newFull, dest, pre)
  }

  /** The conditions under which a move attempt touches anything at all. */
  predicate Moves(s: Store, p: Place, env: MoveEnv) {
    && FullServerPath(s.folders, p).Some?
    && var full := FullServerPath(s.folders, p).value;
    && var drop := FolderById(s.folders, p.folderId).value;
    && drop.isDropSource && drop.online
    && env.resolve(full).FileEntry?
    && DestinationFolder(s.folders, drop, env.resolve(full).size, env).Some?
    && env.xrefAnime != []
    && env.seriesOf(env.xrefAnime[0]).Some?
  }

  /**
   * `MoveFileIfRequired`. Only files in an online drop-source folder move.
   * An unresolvable source asks for a retry; a directory, a missing
   * destination folder, a file without cross references or series, or a
   * target that cannot be found or made ends the attempt as done.
   */
  function MoveFileIfRequired(s: Store, p: Place, env: MoveEnv): (r: MoveOutcome)
    ensures FullServerPath(s.folders, p).None? ==> r == MoveOutcome(true, s, p, [], [], None)
    ensures FullServerPath(s.folders, p).Some? && !FolderById(s.folders, p.folderId).value.isDropSource ==>
      r == MoveOutcome(true, s, p, [], [], None)
    ensures
      (&& FullServerPath(s.folders, p).Some?
       && FolderById(s.folders, p.folderId).value.isDropSource && FolderById(s.folders, p.folderId).value.online
       && env.resolve(FullServerPath(s.folders, p).value).Missing?) ==>
      r == MoveOutcome(false, s, p, [], [], None)
    ensures !r.done ==>
      && FullServerPath(s.folders, p).Some?
      && FolderById(s.folders, p.folderId).value.isDropSource && FolderById(s.folders, p.folderId).value.online
      && (env.resolve(FullServerPath(s.folders, p).value).Missing? || Moves(s, p, env))
    ensures !r.done ==> r.store == s && r.place == p && r.jobs == []
    ensures FullServerPath(s.folders, p).Some? ==> Consistent(s, p, env, FullServerPath(s.folders, p).value, r)
    ensures !Moves(s, p, env) ==> r.actions == [] && r.target.None? && r.store == s && r.place == p && r.jobs == []
  {
    var none := MoveOutcome(true, s, p, [], [], None);
    match FullServerPath(s.folders, p)
    case None => none
    case Some(full) =>
      var drop := FolderById(s.folders, p.folderId).value;
      if !drop.isDropSource || !drop.online then none
      else match env.resolve(full)
        case Missing => MoveOutcome(false, s, p, [], [], None)
        case DirEntry => none
        case FileEntry(size) =>
          match DestinationFolder(s.folders, drop, size, env)
          case None => none
          case Some(dest) =>
            if env.xrefAnime == [] then none
            else match env.seriesOf(env.xrefAnime[0])
              case None => none
              case Some(series) =>
                MoveIntoSeries(s, p, env, full, drop, dest, series)
  }

  /** The sibling search for a file at `full` moving to `dest`. */
  function SearchFor(s: Store, p: Place, env: MoveEnv, full: string, dest: ImportFolder): Search {
    Search(s, env.resolve, p.fileId, dest.cloudId, GetDirectoryName(full))
  }

  /**
   * The target directory: a sibling directory of the series, else the series
   * folder under the destination, which is the only directory ever created.
   */
  function Chosen(s: Store, p: Place, env: MoveEnv, full: string, dest: ImportFolder, series: Series): (r: Option<Target>)
    ensures var sibling := SiblingDirectory(SearchFor(s, p, env, full, dest), series.episodes);
      && (sibling.Some? ==> r == Some(Target(sibling.value, false)))
      && (sibling.None? ==> r == SeriesDirectory(dest, series.name, env))
  {
    var sibling := SiblingDirectory(SearchFor(s, p, env, full, dest), series.episodes);
    if sibling.Some? then Some(Target(sibling.value, false)) else SeriesDirectory(dest, series.name, env)
  }

  /**
   * The move into the series' directory. A sibling search that throws ends
   * the attempt as done with nothing moved, as the catch does.
   */
  function MoveIntoSeries(s: Store, p: Place, env: MoveEnv, full: string, drop: ImportFolder, dest: ImportFolder, series: Series): (r: MoveOutcome)
    ensures Consistent(s, p, env, full, r)
    ensures SearchThrows(SearchFor(s, p, env, full, dest), series.episodes) ==> r == MoveOutcome(true, s, p, [], [], None)
    ensures var t := Chosen(s, p, env, full, dest, series);
      !r.done <==>
        && !SearchThrows(SearchFor(s, p, env, full, dest), series.episodes)
        && t.Some? && t.value.dir != [] && Stalls(s, env, full, t.value.dir)
    ensures forall a :: a in r.actions && a.CreateDirectory? ==>
      && SiblingDirectory(SearchFor(s, p, env, full, dest), series.episodes).None?
      && a.path == Combine(dest.location, env.folderName(series.name))
      && env.resolve(a.path).Missing?
  {
    if SearchThrows(SearchFor(s, p, env, full, dest), series.episodes) then MoveOutcome(true, s, p, [], [], None)
    else
      var chosen := Chosen(s, p, env, full, dest, series);
      if chosen.None? then MoveOutcome(true, s, p, [], [], None)
      else
        var t := chosen.value;
        var pre := if t.created then [CreateDirectory(t.dir)] else [];
        assert forall a :: a in pre ==> a == CreateDirectory(t.dir) && t.created;
        if t.dir == [] then MoveOutcome(true, s, p, [], pre, None)
        else MoveInto(s, p, env, full, drop, t.dir, pre)
  }

  /**
   * A video of the first episode whose first place lies in a folder the store
   * does not know makes the `Any` of the sibling search throw, so the
   * attempt ends as done and nothing is moved, whatever the other videos offer.
   */
  lemma DanglingSiblingEndsMove(s: Store, p: Place, env: MoveEnv, full: string, drop: ImportFolder,
                                dest: ImportFolder, series: Series, v: int)
    requires series.episodes != [] && !Crossover(series.episodes[0].xrefAnime)
    requires v in series.episodes[0].videos
    requires PlacesOf(s, v) != [] && FolderById(s.folders, PlacesOf(s, v)[0].folderId).None?
    ensures MoveIntoSeries(s, p, env, full, drop, dest, series) == MoveOutcome(true, s, p, [], [], None)
  {
    assert StopsUnknownAt(s, PlacesOf(s, v), dest.cloudId, true, 0);
  }

  /** A path that names a file splits into a folder and a non-empty relative path that combine back to it. */
  lemma NamedPathRoundTrip(folders: seq<ImportFolder>, target: string, placeId: int, fileId: int)
    requires FolderIdsUnique(folders)
    requires FromFullPath(folders, target).Some?
    requires GetFileName(target) != []
    ensures
      var (folder, rel) := FromFullPath(folders, target).value;
      FullServerPath(folders, Place(placeId, fileId, folder.id, rel)) == Some(target)
  {
    var (folder, rel) := FromFullPath(folders, target).value;
    assert rel != [] by {
      assert target == WithTrailingSep(folder.location) + rel;
      assert target[LastIndexOf(target, Sep) + 1..] == GetFileName(target);
    }
    FullPathRoundTrip(folders, target, placeId, fileId);
  }

  /**
   * After a successful move, the place's full path is the target the file
   * was moved to, and the file keeps its name.
   */
  lemma MoveRoundTrip(s: Store, p: Place, env: MoveEnv)
    requires FolderIdsUnique(s.folders)
    requires MoveFileIfRequired(s, p, env).place != p
    ensures
      var r := MoveFileIfRequired(s, p, env);
      var full := FullServerPath(s.folders, p).value;
      && r.target.Some?
      && GetFileName(r.target.value) == GetFileName(full)
      && (GetFileName(full) != [] ==> FullServerPath(r.store.folders, r.place) == r.target)
  {
    var r := MoveFileIfRequired(s, p, env);
    var full := FullServerPath(s.folders, p).value;
    assert Consistent(s, p, env, full, r);
    var target := r.target.value;
    assert r.store.folders == s.folders;
    if GetFileName(full) != [] {
      NamedPathRoundTrip(s.folders, target, p.id, p.fileId);
    }
  }

  /** The state the ladder threads through its attempts: records, place, and what was done so far. */
  datatype Progress = Progress(store: Store, place: Place, jobs: seq<Command>, actions: seq<FsAction>)

  /**
   * `RenameIfRequired`: without a default rename script there is nothing to
   * do; an exception escaping the script lookup (`thrown`) is logged and
   * answers true, so the ladder does not retry it; otherwise the answer is
   * the rename's.
   */
  function RenameIfRequired(st: Progress, hasDefaultScript: bool, thrown: bool, env: RenameEnv): (r: Attempt<Progress>)
    ensures !hasDefaultScript || thrown ==> r == Attempt(true, st)
    ensures hasDefaultScript && !thrown ==>
      var o := RenameFile(st.store, st.place, env);
      r.ok == o.done && r.next.store == o.store && r.next.place == o.place
    ensures !r.ok ==> r.next == st
    ensures r.next.jobs == st.jobs && r.next.actions == st.actions
  {
    if thrown || !hasDefaultScript then Attempt(true, st)
    else
      var o := RenameFile(st.store, st.place, env);
      Attempt(o.done, st.(store := o.store, place := o.place))
  }

  /** One move attempt, its jobs and filesystem actions appended to what came before. */
  function MoveAttempt(st: Progress, env: MoveEnv): (r: Attempt<Progress>)
    ensures !r.ok ==> r.next.store == st.store && r.next.place == st.place && r.next.jobs == st.jobs
    ensures st.jobs <= r.next.jobs && st.actions <= r.next.actions
  {
    var o := MoveFileIfRequired(st.store, st.place, env);
    Attempt(o.done, Progress(o.store, o.place, st.jobs + o.jobs, st.actions + o.actions))
  }

  /** The inputs of every try of the ladder, by try number. */
  datatype LadderEnv = LadderEnv(hasDefaultScript: bool, renameThrows: nat -> bool, renames: nat -> RenameEnv, moves: nat -> MoveEnv)

  function RenameStep(e: LadderEnv): (Progress, nat) -> Attempt<Progress> {
    (st: Progress, k: nat) => RenameIfRequired(st, e.hasDefaultScript, e.renameThrows(k), e.renames(k))
  }

  function MoveStep(e: LadderEnv): (Progress, nat) -> Attempt<Progress> {
    (st: Progress, k: nat) => MoveAttempt(st, e.moves(k))
  }

  /** The rename phase ends where it began when it fails, and is one successful try without a script. */
  lemma RenamePhaseFacts(init: Progress, e: LadderEnv)
    ensures
      var rn := RunPhase(init, RenameStep(e), 0);
      && (!rn.answers[|rn.answers| - 1] ==> rn.state == init)
      && (!e.hasDefaultScript || e.renameThrows(0) ==> rn.answers == [true] && rn.succeeded)
  {
    var rename := RenameStep(e);
    forall t: Progress, j: nat ensures !rename(t, j).ok ==> rename(t, j).next == t {
      assert rename(t, j) == RenameIfRequired(t, e.hasDefaultScript, e.renameThrows(j), e.renames(j));
    }
    FailedPhaseKeepsState(init, rename, 0);
    if !e.hasDefaultScript || e.renameThrows(0) {
      assert rename(init, 0) == RenameIfRequired(init, e.hasDefaultScript, e.renameThrows(0), e.renames(0)) == Attempt(true, init);
    }
  }

  /**
   * `RenameAndMoveAsRequired` on a place, as written: the fourth move try's
   * answer is dropped, so the permissions step runs only when one of the
   * first three move tries succeeded. Without a default script (or when the
   * first lookup throws) the rename phase is one successful try; when every
   * rename try fails, the records are exactly as they were and no move is
   * attempted.
   */
  function RenameAndMoveAsRequired(s: Store, p: Place, e: LadderEnv): (r: Run<Progress>)
    ensures !e.hasDefaultScript || e.renameThrows(0) ==> r.renames == [true] && r.moves != []
    ensures r.moves == [] ==> r.state == Progress(s, p, [], []) && !r.permissionsSet
    ensures r.permissionsSet <==> r.moves != [] && r.moves[|r.moves| - 1] && |r.moves| < MaxTries
  {
    var init := Progress(s, p, [], []);
    RenamePhaseFacts(init, e);
    RenameAndMoveAsWritten(init, RenameStep(e), MoveStep(e))
  }

  /**
   * The ladder with the fourth move try's answer kept: the permissions step
   * runs exactly when some move try succeeded.
   */
  function RenameAndMoveCorrected(s: Store, p: Place, e: LadderEnv): (r: Run<Progress>)
    ensures !e.hasDefaultScript || e.renameThrows(0) ==> r.renames == [true] && r.moves != []
    ensures r.moves == [] ==> r.state == Progress(s, p, [], []) && !r.permissionsSet
    ensures r.permissionsSet <==> true in r.moves
  {
    var init := Progress(s, p, [], []);
    RenamePhaseFacts(init, e);
    RenameAndMove(init, RenameStep(e), MoveStep(e))
  }

  /** The two ladders on a place make the same tries and differ only in the permissions step. */
  lemma PlaceLadderVersionsAgree(s: Store, p: Place, e: LadderEnv)
    ensures
      var w := RenameAndMoveAsRequired(s, p, e);
      var c := RenameAndMoveCorrected(s, p, e);
      && w.renames == c.renames && w.moves == c.moves && w.state == c.state
      && (c.permissionsSet && !w.permissionsSet ==> w.moves == [false, false, false, true])
  {
    LadderVersionsAgree(Progress(s, p, [], []), RenameStep(e), MoveStep(e));
  }
}
