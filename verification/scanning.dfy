/**
 * The scan side of the importer: turning the paths a folder listing yields
 * into hash jobs (`RunImport_ScanFolder`, `RunImport_DropFolders`,
 * `RunImport_NewFiles`, `RunImport_ImportFolderNewFiles`). Listings are
 * inputs, one sequence of full paths per import folder.
 */
module Scanning {
  import opened Wrappers
  import opened Seqs
  import opened Text
  import opened Jobs
  import opened Records
  import opened Places

  /** What `Utils.GetFilesForImportFolder` lists for each import folder, by folder id. */
  type Listing = int -> seq<string>

  /** Paths under a recycle bin are never counted or hashed (`Contains` is ordinal). */
  predicate Recycled(path: string) {
    Contains(path, "$RECYCLE.BIN")
  }

  /**
   * `Except(second, StringComparer.InvariantCultureIgnoreCase)` with the
   * folded forms in `seen` already excluded: the first path of every
   * case-insensitive class not yet seen, in order.
   */
  function ExceptFrom(files: seq<string>, seen: set<string>): (r: seq<string>)
    ensures forall i :: 0 <= i < |r| ==> r[i] in files && Lower(r[i]) !in seen
    ensures forall i, j :: 0 <= i < j < |r| ==> Lower(r[i]) != Lower(r[j])
  {
    if files == [] then []
    else
      var f := files[0];
      if Lower(f) in seen then ExceptFrom(files[1..], seen)
      else [f] + ExceptFrom(files[1..], seen + {Lower(f)})
  }

  /** Every path whose folded form was not seen before is represented in the result. */
  lemma {:induction false} ExceptFromComplete(files: seq<string>, seen: set<string>, k: nat)
    requires k < |files| && Lower(files[k]) !in seen
    ensures exists i :: 0 <= i < |ExceptFrom(files, seen)| && Lower(ExceptFrom(files, seen)[i]) == Lower(files[k])
  {
    var r := ExceptFrom(files, seen);
    var f := files[0];
    if k == 0 {
      assert Lower(r[0]) == Lower(f);
    } else if Lower(f) in seen {
      assert files[k] == files[1..][k - 1];
      ExceptFromComplete(files[1..], seen, k - 1);
    } else if Lower(files[k]) == Lower(f) {
      assert Lower(r[0]) == Lower(f);
    } else {
      var rest := ExceptFrom(files[1..], seen + {Lower(f)});
      assert files[k] == files[1..][k - 1];
      ExceptFromComplete(files[1..], seen + {Lower(f)}, k - 1);
      var i :| 0 <= i < |rest| && Lower(rest[i]) == Lower(files[k]);
      assert r[i + 1] == rest[i];
    }
  }

  /** The folded forms of the ignored paths. */
  function Folded(ignored: seq<string>): (r: set<string>)
    ensures forall j :: 0 <= j < |ignored| ==> Lower(ignored[j]) in r
    ensures forall x :: x in r ==> exists j :: 0 <= j < |ignored| && x == Lower(ignored[j])
  {
    set j | 0 <= j < |ignored| :: Lower(ignored[j])
  }

  /**
   * `fileList.Except(ignored, InvariantCultureIgnoreCase)`: no result equals
   * an ignored path ignoring case and no two results are equal ignoring case.
   */
  function ExceptIgnoreCase(files: seq<string>, ignored: seq<string>): (r: seq<string>)
    ensures forall i :: 0 <= i < |r| ==> r[i] in files
    ensures forall i, j :: 0 <= i < |r| && 0 <= j < |ignored| ==> !EqualsIgnoreCase(r[i], ignored[j])
    ensures forall i, j :: 0 <= i < j < |r| ==> !EqualsIgnoreCase(r[i], r[j])
  {
    ExceptFrom(files, Folded(ignored))
  }

  /** Every listed path that equals no ignored path ignoring case survives, up to case. */
  lemma ExceptIgnoreCaseComplete(files: seq<string>, ignored: seq<string>, k: nat)
    requires k < |files|
    requires forall j :: 0 <= j < |ignored| ==> !EqualsIgnoreCase(files[k], ignored[j])
    ensures exists i :: 0 <= i < |ExceptIgnoreCase(files, ignored)| && EqualsIgnoreCase(ExceptIgnoreCase(files, ignored)[i], files[k])
  {
    assert Lower(files[k]) !in Folded(ignored);
    ExceptFromComplete(files, Folded(ignored), k);
    var r := ExceptIgnoreCase(files, ignored);
    var i :| 0 <= i < |r| && Lower(r[i]) == Lower(files[k]);
    assert EqualsIgnoreCase(r[i], files[k]);
  }

  /** The counters and jobs of one pass over a file list. */
  datatype Tally = Tally(filesFound: nat, videosFound: nat, jobs: seq<Command>)

  /** The paths a pass counts: those outside a recycle bin, in order. */
  function Counted(files: seq<string>): seq<string> {
    Filter(files, (f: string) => !Recycled(f))
  }

  /** The paths a pass hashes: the videos outside a recycle bin, in order. */
  function Videos(files: seq<string>, isVideo: string -> bool): seq<string> {
    Filter(files, (f: string) => !Recycled(f) && isVideo(f))
  }

  /** One `HashFile` job per path, in the order of the paths. */
  predicate HashesOf(jobs: seq<Command>, paths: seq<string>) {
    |jobs| == |paths| && forall i :: 0 <= i < |jobs| ==> jobs[i] == HashFile(paths[i])
  }

  /**
   * The counting loop: every path not in a recycle bin is a file found;
   * every such video is counted and gets one `HashFile` job, in order.
   */
  function CountAndQueue(files: seq<string>, isVideo: string -> bool): (r: Tally)
    ensures r.filesFound == |Counted(files)|
    ensures r.videosFound == |Videos(files, isVideo)|
    ensures r.videosFound <= r.filesFound
    ensures HashesOf(r.jobs, Videos(files, isVideo))
    ensures forall i :: 0 <= i < |r.jobs| ==>
      r.jobs[i].HashFile? && r.jobs[i].path in files && !Recycled(r.jobs[i].path) && isVideo(r.jobs[i].path)
  {
    if files == [] then Tally(0, 0, [])
    else
      var f := files[0];
      var rest := CountAndQueue(files[1..], isVideo);
      assert forall k :: 1 <= k < |files| ==> files[k] == files[1..][k - 1];
      if Recycled(f) then rest
      else if !isVideo(f) then Tally(rest.filesFound + 1, rest.videosFound, rest.jobs)
      else
        var r := Tally(rest.filesFound + 1, rest.videosFound + 1, [HashFile(f)] + rest.jobs);
        assert Videos(files, isVideo) == [f] + Videos(files[1..], isVideo);
        r
  }

  /** Every listed video outside a recycle bin gets its hash job. */
  lemma {:induction false} HashesEveryVideo(files: seq<string>, isVideo: string -> bool, x: string)
    requires x in files && !Recycled(x) && isVideo(x)
    ensures HashFile(x) in CountAndQueue(files, isVideo).jobs
  {
    if files[0] != x {
      HashesEveryVideo(files[1..], isVideo, x);
    }
  }

  /** The non-empty full paths of the places of ignored files (`GetIgnoredVideos().SelectMany(Places)`). */
  function IgnoredPaths(s: Store, files: seq<VideoLocal>): (r: seq<string>)
    ensures forall i :: 0 <= i < |r| ==>
      && r[i] != []
      && exists v, q :: v in files && v.isIgnored && q in PlacesOf(s, v.id) && FullServerPath(s.folders, q) == Some(r[i])
    ensures forall v, q :: v in files && v.isIgnored && q in PlacesOf(s, v.id) && FullServerPath(s.folders, q).Some? ==>
      FullServerPath(s.folders, q).value in r
  {
    if files == [] then []
    else
      var rest := IgnoredPaths(s, files[1..]);
      assert forall v :: v in files[1..] ==> v in files;
      if !files[0].isIgnored then rest
      else PlacePaths(s.folders, PlacesOf(s, files[0].id)) + rest
  }

  /** The full paths of the places that have one, in order. */
  function PlacePaths(folders: seq<ImportFolder>, ps: seq<Place>): (r: seq<string>)
    ensures forall i :: 0 <= i < |r| ==> r[i] != [] && exists q :: q in ps && FullServerPath(folders, q) == Some(r[i])
    ensures forall q :: q in ps && FullServerPath(folders, q).Some? ==> FullServerPath(folders, q).value in r
  {
    if ps == [] then []
    else
      var rest := PlacePaths(folders, ps[1..]);
      assert forall q :: q in ps ==> q == ps[0] || q in ps[1..];
      match FullServerPath(folders, ps[0])
      case None => rest
      case Some(path) => [path] + rest
  }

  /**
   * The known-path dictionary of `RunImport_ScanFolder`: each path maps to
   * the last place with that full path (later assignments overwrite).
   */
  function LastPlaceAt(folders: seq<ImportFolder>, ps: seq<Place>, path: string): (r: Option<Place>)
    ensures r.Some? ==> r.value in ps && FullServerPath(folders, r.value) == Some(path)
    ensures r.None? <==> forall k :: 0 <= k < |ps| ==> FullServerPath(folders, ps[k]) != Some(path)
  {
    if ps == [] then None
    else
      var last := ps[|ps| - 1];
      var r := LastPlaceAt(folders, ps[..|ps| - 1], path);
      assert forall k :: 0 <= k < |ps| - 1 ==> ps[k] == ps[..|ps| - 1][k];
      if FullServerPath(folders, last) == Some(path) then Some(last) else r
  }

  /** The listed paths some known place points at, in listing order. */
  function KnownListed(folders: seq<ImportFolder>, known: seq<Place>, files: seq<string>): seq<string> {
    Filter(files, (x: string) => LastPlaceAt(folders, known, x).Some?)
  }

  /**
   * The places whose `RenameAndMoveAsRequired` a drop-folder scan calls: for
   * each listed path that a known place points at, in listing order, the
   * last such place.
   */
  function Relocations(folders: seq<ImportFolder>, known: seq<Place>, files: seq<string>): (r: seq<int>)
    ensures NamesListed(folders, known, files, r)
  {
    RelocationsSound(folders, known, files);
    RelocationsOf(folders, known, files)
  }

  /** The loop behind `Relocations`, one listed path at a time. */
  function RelocationsOf(folders: seq<ImportFolder>, known: seq<Place>, files: seq<string>): seq<int> {
    if files == [] then []
    else
      var rest := RelocationsOf(folders, known, files[1..]);
      match LastPlaceAt(folders, known, files[0])
      case None => rest
      case Some(q) => [q.id] + rest
  }

  /** Every id in `ids` is that of a place of `known` whose full path is one of `files`. */
  predicate NamesListed(folders: seq<ImportFolder>, known: seq<Place>, files: seq<string>, ids: seq<int>) {
    forall i :: 0 <= i < |ids| ==> ListedPlace(folders, known, files, ids[i])
  }

  /** `id` is that of a place of `known` whose full path is one of `files`. */
  predicate ListedPlace(folders: seq<ImportFolder>, known: seq<Place>, files: seq<string>, id: int) {
    exists q :: q in known && q.id == id && FullServerPath(folders, q).Some? && FullServerPath(folders, q).value in files
  }

  /** Every relocation names a known place at a listed path. */
  lemma {:induction false} RelocationsSound(folders: seq<ImportFolder>, known: seq<Place>, files: seq<string>)
    ensures NamesListed(folders, known, files, RelocationsOf(folders, known, files))
  {
    var r := RelocationsOf(folders, known, files);
    var kl := KnownListed(folders, known, files);
    RelocationsExact(folders, known, files);
    forall i | 0 <= i < |r|
      ensures ListedPlace(folders, known, files, r[i])
    {
      assert LastPlaceAt(folders, known, kl[i]).Some? && r[i] == LastPlaceAt(folders, known, kl[i]).value.id;
      var q := LastPlaceAt(folders, known, kl[i]).value;
      assert kl[i] in files;
      assert q in known && q.id == r[i] && FullServerPath(folders, q) == Some(kl[i]);
    }
  }

  /** Exactly one relocation per listed path a known place points at, in listing order, naming its last such place. */
  lemma {:induction false} RelocationsExact(folders: seq<ImportFolder>, known: seq<Place>, files: seq<string>)
    ensures var r := RelocationsOf(folders, known, files);
      var kl := KnownListed(folders, known, files);
      && |r| == |kl|
      && forall i :: 0 <= i < |r| ==> LastPlaceAt(folders, known, kl[i]).Some? && r[i] == LastPlaceAt(folders, known, kl[i]).value.id
  {
    if files != [] {
      RelocationsExact(folders, known, files[1..]);
      var kl := KnownListed(folders, known, files[1..]);
      var rest := RelocationsOf(folders, known, files[1..]);
      var head := LastPlaceAt(folders, known, files[0]);
      if head.Some? {
        var kl' := KnownListed(folders, known, files);
        var r := RelocationsOf(folders, known, files);
        assert kl' == [files[0]] + kl;
        assert r == [head.value.id] + rest;
        forall i | 0 <= i < |r|
          ensures LastPlaceAt(folders, known, kl'[i]).Some? && r[i] == LastPlaceAt(folders, known, kl'[i]).value.id
        {
          if i > 0 {
            assert r[i] == rest[i - 1] && kl'[i] == kl[i - 1];
          }
        }
      } else {
        assert KnownListed(folders, known, files) == kl;
        assert RelocationsOf(folders, known, files) == rest;
      }
    }
  }

  /** What a scan reports: its counters and hash jobs, and the places it asks to rename and move. */
  datatype ScanReport = ScanReport(tally: Tally, relocate: seq<int>)

  /** The places recorded under an import folder, in store order. */
  function FolderPlaces(s: Store, folderId: int): seq<Place> {
    Filter(s.places, (q: Place) => q.folderId == folderId)
  }

  /** The listing of a folder minus the ignored paths, compared ignoring case. */
  function Survivors(s: Store, files: seq<string>): seq<string> {
    ExceptIgnoreCase(files, IgnoredPaths(s, s.files))
  }

  /**
   * `RunImport_ScanFolder`: nothing for an unknown folder; otherwise the
   * listing minus ignored paths is counted and hashed in full, known paths
   * included, and in a drop source every known path also triggers
   * `RenameAndMoveAsRequired` on its place.
   */
  function ScanFolder(s: Store, folderId: int, listing: Listing, isVideo: string -> bool): (r: Option<ScanReport>)
    ensures r.None? <==> FolderById(s.folders, folderId).None?
    ensures r.Some? ==>
      var files := Survivors(s, listing(folderId));
      && r.value.tally.filesFound == |Counted(files)|
      && r.value.tally.videosFound == |Videos(files, isVideo)|
      && HashesOf(r.value.tally.jobs, Videos(files, isVideo))
      && (!FolderById(s.folders, folderId).value.isDropSource ==> r.value.relocate == [])
      && NamesListed(s.folders, FolderPlaces(s, folderId), files, r.value.relocate)
  {
    match FolderById(s.folders, folderId)
    case None => None
    case Some(f) =>
      var files := Survivors(s, listing(folderId));
      var known := FolderPlaces(s, folderId);
      var tally := CountAndQueue(files, isVideo);
      var relocate := if f.isDropSource then Relocations(s.folders, known, files) else [];
      Some(ScanReport(tally, relocate))
  }

  /** Every listed path that no ignored path matches is counted, up to case, and hashed when it is a video. */
  lemma ScanFolderHashesListed(s: Store, folderId: int, listing: Listing, isVideo: string -> bool, x: string)
    requires FolderById(s.folders, folderId).Some? && x in listing(folderId)
    requires forall y :: y in IgnoredPaths(s, s.files) ==> !EqualsIgnoreCase(x, y)
    ensures exists y ::
      && y in Survivors(s, listing(folderId)) && EqualsIgnoreCase(y, x)
      && (!Recycled(y) && isVideo(y) ==> HashFile(y) in ScanFolder(s, folderId, listing, isVideo).value.tally.jobs)
  {
    var files := listing(folderId);
    var k :| 0 <= k < |files| && files[k] == x;
    ExceptIgnoreCaseComplete(files, IgnoredPaths(s, s.files), k);
    var out := Survivors(s, files);
    var i :| 0 <= i < |out| && EqualsIgnoreCase(out[i], x);
    if !Recycled(out[i]) && isVideo(out[i]) {
      HashesEveryVideo(out, isVideo, out[i]);
    }
  }

  /** In a drop source, every surviving path that a place of the folder points at relocates that path's last place. */
  lemma ScanFolderRelocatesKnown(s: Store, folderId: int, listing: Listing, isVideo: string -> bool, x: string)
    requires FolderById(s.folders, folderId).Some? && FolderById(s.folders, folderId).value.isDropSource
    requires x in Survivors(s, listing(folderId))
    requires LastPlaceAt(s.folders, FolderPlaces(s, folderId), x).Some?
    ensures LastPlaceAt(s.folders, FolderPlaces(s, folderId), x).value.id in ScanFolder(s, folderId, listing, isVideo).value.relocate
  {
    var files := Survivors(s, listing(folderId));
    var known := FolderPlaces(s, folderId);
    RelocationsExact(s.folders, known, files);
    var kl := KnownListed(s.folders, known, files);
    var k :| 0 <= k < |files| && files[k] == x;
    assert x in kl;
    var j :| 0 <= j < |kl| && kl[j] == x;
    assert Relocations(s.folders, known, files)[j] == LastPlaceAt(s.folders, known, x).value.id;
  }

  /** The listings of the given folders, concatenated in folder order. */
  function Gather(folders: seq<ImportFolder>, listing: Listing): (r: seq<string>)
    ensures forall i :: 0 <= i < |r| ==> exists f :: f in folders && r[i] in listing(f.id)
    ensures forall f, x :: f in folders && x in listing(f.id) ==> x in r
  {
    if folders == [] then []
    else
      var rest := Gather(folders[1..], listing);
      assert forall f :: f in folders ==> f == folders[0] || f in folders[1..];
      listing(folders[0].id) + rest
  }

  /** The listing of a list of folders is the listing of its first part followed by that of the rest. */
  lemma {:induction false} GatherAppend(a: seq<ImportFolder>, b: seq<ImportFolder>, listing: Listing)
    ensures Gather(a + b, listing) == Gather(a, listing) + Gather(b, listing)
    ensures |a| == 1 ==> Gather(a, listing) == listing(a[0].id)
  {
    if a == [] {
      assert a + b == b;
    } else {
      assert (a + b)[0] == a[0] && (a + b)[1..] == a[1..] + b;
      GatherAppend(a[1..], b, listing);
    }
  }

  /** The import folders marked as drop sources, in store order. */
  function DropSources(folders: seq<ImportFolder>): seq<ImportFolder> {
    Filter(folders, (f: ImportFolder) => f.isDropSource)
  }

  /**
   * `RunImport_DropFolders`: the listings of every drop-source folder, minus
   * ignored paths, counted and hashed.
   */
  function DropFolders(s: Store, listing: Listing, isVideo: string -> bool): (r: Tally)
    ensures var files := Survivors(s, Gather(DropSources(s.folders), listing));
      && r.filesFound == |Counted(files)|
      && r.videosFound == |Videos(files, isVideo)|
      && HashesOf(r.jobs, Videos(files, isVideo))
    ensures forall i :: 0 <= i < |r.jobs| ==>
      && r.jobs[i].HashFile?
      && (exists f :: f in s.folders && f.isDropSource && r.jobs[i].path in listing(f.id))
      && forall x :: x in IgnoredPaths(s, s.files) ==> !EqualsIgnoreCase(r.jobs[i].path, x)
    ensures r.videosFound <= r.filesFound
  {
    var drops := DropSources(s.folders);
    var files := Survivors(s, Gather(drops, listing));
    CountAndQueue(files, isVideo)
  }

  /** Every path listed in a drop source that no ignored path matches is counted, up to case, and hashed when it is a video. */
  lemma DropFoldersHashesListed(s: Store, listing: Listing, isVideo: string -> bool, f: ImportFolder, x: string)
    requires f in s.folders && f.isDropSource && x in listing(f.id)
    requires forall y :: y in IgnoredPaths(s, s.files) ==> !EqualsIgnoreCase(x, y)
    ensures exists y ::
      && y in Survivors(s, Gather(DropSources(s.folders), listing)) && EqualsIgnoreCase(y, x)
      && (!Recycled(y) && isVideo(y) ==> HashFile(y) in DropFolders(s, listing, isVideo).jobs)
  {
    var drops := DropSources(s.folders);
    var n :| 0 <= n < |s.folders| && s.folders[n] == f;
    assert f in drops;
    var files := Gather(drops, listing);
    assert x in files;
    var k :| 0 <= k < |files| && files[k] == x;
    ExceptIgnoreCaseComplete(files, IgnoredPaths(s, s.files), k);
    var out := Survivors(s, files);
    var i :| 0 <= i < |out| && EqualsIgnoreCase(out[i], x);
    if !Recycled(out[i]) && isVideo(out[i]) {
      HashesEveryVideo(out, isVideo, out[i]);
    }
  }

  /** The outcome of forgetting places without a full path and indexing the rest. */
  datatype Index = Index(store: Store, jobs: seq<Command>, known: set<string>)

  /**
   * The first loop of `RunImport_NewFiles` over a snapshot of all places: a
   * place without a full path is removed with `RemoveRecord` (a failure is
   * logged and skipped); every other place's full path becomes known.
   */
  /** One iteration of that loop: a place without a full path is removed when its file record exists. */
  function IndexStep(s: Store, p: Place): (r: Removal)
    ensures r.store.folders == s.folders
    ensures forall q :: q in r.store.places <==>
      q in s.places && (FullServerPath(s.folders, p).Some? || FileById(s, p.fileId).None? || q.id != p.id)
    ensures forall i :: 0 <= i < |r.jobs| ==> r.jobs[i].DeleteFileFromMyListByHash?
  {
    if FullServerPath(s.folders, p).Some? || RemoveRecord(s, p).Failure? then Removal(s, [])
    else RemoveRecord(s, p).value
  }

  /** A step never takes the file record of another recorded place of the same file. */
  lemma IndexStepKeepsFile(s: Store, p: Place, x: Place)
    requires p in s.places && x in s.places && x.id != p.id && FileById(s, x.fileId).Some?
    ensures FileById(IndexStep(s, p).store, x.fileId).Some?
  {
    var next := IndexStep(s, p).store;
    var v := FileById(s, x.fileId).value;
    assert v in next.files by {
      if FullServerPath(s.folders, p).None? && RemoveRecord(s, p).Success? && x.fileId == p.fileId {
        TwoMembers(PlacesOf(s, p.fileId), p, x);
      }
    }
    var k :| 0 <= k < |next.files| && next.files[k] == v;
  }

  function IndexPlaces(s: Store, ps: seq<Place>): (r: Index)
    decreases ps
    ensures r.store.folders == s.folders
    ensures forall path :: path in r.known <==> exists p :: p in ps && FullServerPath(s.folders, p) == Some(path)
    ensures forall q :: q in r.store.places ==> q in s.places
    ensures forall q :: q in s.places && q !in r.store.places ==>
      exists p :: p in ps && p.id == q.id && FullServerPath(s.folders, p).None?
    ensures forall i :: 0 <= i < |r.jobs| ==> r.jobs[i].DeleteFileFromMyListByHash?
  {
    if ps == [] then Index(s, [], {})
    else
      var p := ps[0];
      var next := IndexStep(s, p);
      var rest := IndexPlaces(next.store, ps[1..]);
      var known := if FullServerPath(s.folders, p).Some? then rest.known + {FullServerPath(s.folders, p).value} else rest.known;
      Index(rest.store, next.jobs + rest.jobs, known)
  }

  /**
   * The first loop of `RunImport_NewFiles` forgets every place of the
   * snapshot that has no full path and whose file record exists when the
   * loop starts, given that the snapshot's places are recorded and have
   * distinct ids: removing an earlier place never takes the file record of
   * a later one, which still counts as a second place of that file.
   */
  lemma {:induction false} IndexPlacesForgetsPathless(s: Store, ps: seq<Place>, i: nat)
    requires UniquePlaceIds(ps) && forall q :: q in ps ==> q in s.places
    requires i < |ps| && FullServerPath(s.folders, ps[i]).None? && FileById(s, ps[i].fileId).Some?
    ensures ps[i] !in IndexPlaces(s, ps).store.places
    decreases ps
  {
    var next := IndexStep(s, ps[0]);
    assert IndexPlaces(s, ps).store == IndexPlaces(next.store, ps[1..]).store;
    if i == 0 {
      assert ps[0] !in next.store.places;
    } else {
      IndexStepHandsOn(s, ps, i);
      IndexPlacesForgetsPathless(next.store, ps[1..], i - 1);
    }
  }

  /**
   * The first step of the loop leaves the rest of the snapshot recorded,
   * with distinct ids, and keeps the file record of every later place.
   */
  lemma IndexStepHandsOn(s: Store, ps: seq<Place>, i: nat)
    requires UniquePlaceIds(ps) && forall q :: q in ps ==> q in s.places
    requires 0 < i < |ps| && FileById(s, ps[i].fileId).Some?
    ensures var next := IndexStep(s, ps[0]).store;
      && UniquePlaceIds(ps[1..]) && (forall q :: q in ps[1..] ==> q in next.places)
      && FileById(next, ps[1..][i - 1].fileId).Some?
  {
    var p := ps[0];
    var tail := ps[1..];
    UniquePlaceIdsTail(ps);
    var x := ps[i];
    assert x == tail[i - 1] && x.id != p.id;
    IndexStepKeepsFile(s, p, x);
  }

  /** The second loop of `RunImport_NewFiles`: listed paths neither in a recycle bin nor known, in order. */
  function Unknown(files: seq<string>, known: set<string>): (r: seq<string>)
    ensures r == Filter(files, (x: string) => !Recycled(x) && x !in known)
    ensures forall x :: x in r <==> x in files && !Recycled(x) && x !in known
    ensures forall i :: 0 <= i < |r| ==> !Recycled(r[i])
  {
    if files == [] then []
    else
      var rest := Unknown(files[1..], known);
      assert forall x :: x in files <==> x == files[0] || x in files[1..];
      if Recycled(files[0]) || files[0] in known then rest else [files[0]] + rest
  }

  /**
   * `RunImport_NewFiles`: after indexing, every listed path of every folder
   * that is neither in a recycle bin nor known is counted, and hashed when
   * it is a video; known paths are never hashed.
   */
  function NewFiles(s: Store, listing: Listing, isVideo: string -> bool): (r: (Index, Tally))
    ensures forall i :: 0 <= i < |r.1.jobs| ==>
      && r.1.jobs[i].HashFile?
      && r.1.jobs[i].path !in r.0.known
      && exists f :: f in s.folders && r.1.jobs[i].path in listing(f.id)
    ensures r.1.filesFound == |Unknown(Gather(s.folders, listing), r.0.known)|
  {
    var index := IndexPlaces(s, s.places);
    var unseen := Unknown(Gather(s.folders, listing), index.known);
    var tally := CountAndQueue(unseen, isVideo);
    FilterKeepsAll(unseen, (f: string) => !Recycled(f));
    (index, tally)
  }

  /** Every listed video that is neither known nor in a recycle bin is hashed by `RunImport_NewFiles`. */
  lemma NewFilesHashesUnknown(s: Store, listing: Listing, isVideo: string -> bool, f: ImportFolder, x: string)
    requires f in s.folders && x in listing(f.id) && !Recycled(x) && isVideo(x)
    requires x !in NewFiles(s, listing, isVideo).0.known
    ensures HashFile(x) in NewFiles(s, listing, isVideo).1.jobs
  {
    var index := IndexPlaces(s, s.places);
    HashesEveryVideo(Unknown(Gather(s.folders, listing), index.known), isVideo, x);
  }

  lemma {:induction false} FilterKeepsAll<T>(s: seq<T>, p: T -> bool)
    requires forall i :: 0 <= i < |s| ==> p(s[i])
    ensures Filter(s, p) == s
  {
    if s != [] {
      FilterKeepsAll(s[1..], p);
    }
  }

  /** `List.Remove`: drops the first occurrence of `x`, if any. */
  function RemoveFirst(s: seq<string>, x: string): (r: seq<string>)
    ensures multiset(r) == multiset(s) - multiset{x}
    ensures x !in s ==> r == s
  {
    if s == [] then []
    else if s[0] == x then
      assert s == [s[0]] + s[1..];
      s[1..]
    else
      assert s == [s[0]] + s[1..];
      [s[0]] + RemoveFirst(s[1..], x)
  }

  /**
   * The known-path removal of `RunImport_ImportFolderNewFiles`: one listed
   * occurrence is removed per place of the folder whose full path was
   * listed (`HashSet` and `List.Remove` compare ordinally).
   */
  function RemoveKnown(list: seq<string>, listed: set<string>, paths: seq<string>): (r: seq<string>)
    ensures multiset(r) == multiset(list) - multiset(Filter(paths, (x: string) => x in listed))
  {
    if paths == [] then list
    else
      var rest := RemoveKnown(list, listed, paths[..|paths| - 1]);
      var x := paths[|paths| - 1];
      assert paths == paths[..|paths| - 1] + [x];
      FilterAppend(paths[..|paths| - 1], [x], (y: string) => y in listed);
      if x in listed then RemoveFirst(rest, x) else rest
  }

  /**
   * `RunImport_ImportFolderNewFiles`: the folder's listing minus one
   * occurrence per place already recorded at a listed path, counted and
   * hashed; a listed path with no place keeps all its occurrences.
   */
  function ImportFolderNewFiles(s: Store, folder: ImportFolder, listing: Listing, isVideo: string -> bool): (r: (seq<string>, Tally))
    ensures multiset(r.0) == multiset(listing(folder.id)) - multiset(PlacePaths(s.folders, FolderPlaces(s, folder.id)))
    ensures forall x :: (forall q :: q in s.places && q.folderId == folder.id ==> FullServerPath(s.folders, q) != Some(x)) ==>
      multiset(r.0)[x] == multiset(listing(folder.id))[x]
    ensures r.1.filesFound == |Counted(r.0)| && r.1.videosFound == |Videos(r.0, isVideo)|
    ensures HashesOf(r.1.jobs, Videos(r.0, isVideo))
    ensures forall i :: 0 <= i < |r.1.jobs| ==> r.1.jobs[i].HashFile? && r.1.jobs[i].path in r.0
  {
    var list := listing(folder.id);
    var listed := set i | 0 <= i < |list| :: list[i];
    var paths := PlacePaths(s.folders, FolderPlaces(s, folder.id));
    var remaining := RemoveKnown(list, listed, paths);
    UnplacedKept(s, folder, list, listed);
    OnlyListedRemoved(list, listed, paths);
    (remaining, CountAndQueue(remaining, isVideo))
  }

  /** Removing the listed ones among `paths` removes as much as removing all of `paths`. */
  lemma OnlyListedRemoved(list: seq<string>, listed: set<string>, paths: seq<string>)
    requires listed == set i | 0 <= i < |list| :: list[i]
    ensures multiset(list) - multiset(Filter(paths, (x: string) => x in listed)) == multiset(list) - multiset(paths)
  {
    forall y
      ensures (multiset(list) - multiset(Filter(paths, (x: string) => x in listed)))[y] == (multiset(list) - multiset(paths))[y]
    {
      FilterMultiplicity(paths, (x: string) => x in listed, y);
      if y !in listed {
        assert y !in list;
      }
    }
  }

  /** Every listed video of the folder outside a recycle bin that no place of the folder points at is hashed. */
  lemma ImportFolderHashesUnplaced(s: Store, folder: ImportFolder, listing: Listing, isVideo: string -> bool, x: string)
    requires x in listing(folder.id) && !Recycled(x) && isVideo(x)
    requires forall q :: q in s.places && q.folderId == folder.id ==> FullServerPath(s.folders, q) != Some(x)
    ensures HashFile(x) in ImportFolderNewFiles(s, folder, listing, isVideo).1.jobs
  {
    var r := ImportFolderNewFiles(s, folder, listing, isVideo);
    assert multiset(r.0)[x] == multiset(listing(folder.id))[x] > 0;
    HashesEveryVideo(r.0, isVideo, x);
  }

  /** A path no place points at is not among the places' paths. */
  lemma PathOfNoPlace(folders: seq<ImportFolder>, ps: seq<Place>, x: string)
    requires forall q :: q in ps ==> FullServerPath(folders, q) != Some(x)
    ensures x !in PlacePaths(folders, ps)
  {
  }

  /** A listed path no place of the folder points at loses no occurrence. */
  lemma UnplacedKept(s: Store, folder: ImportFolder, list: seq<string>, listed: set<string>)
    ensures forall x :: (forall q :: q in s.places && q.folderId == folder.id ==> FullServerPath(s.folders, q) != Some(x)) ==>
      multiset(RemoveKnown(list, listed, PlacePaths(s.folders, FolderPlaces(s, folder.id))))[x]
        == multiset(list)[x]
  {
    var ps := FolderPlaces(s, folder.id);
    var paths := PlacePaths(s.folders, ps);
    var known := Filter(paths, (y: string) => y in listed);
    forall x | forall q :: q in s.places && q.folderId == folder.id ==> FullServerPath(s.folders, q) != Some(x)
      ensures multiset(RemoveKnown(list, listed, paths))[x] == multiset(list)[x]
    {
      PathOfNoPlace(s.folders, ps, x);
      assert x !in known;
    }
  }
}
