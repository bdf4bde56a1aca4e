/**
 * `Importer.RemoveRecordsWithoutPhysicalFiles`: the integrity sweep. Its
 * passes, in order:
 *   1. remove the places whose file is gone, folder by folder;
 *   2. delete empty file records;
 *   3. merge the file records that share a hash onto one survivor;
 *   4. drop places without a path and duplicate places, and delete the file
 *      records left with no place at all.
 * The episode and series refreshes the source collects on the way, the
 * cross-reference cleanup and the statistics updates are not modelled.
 */
module Reconcile {
  import opened Wrappers
  import opened Seqs
  import opened Text
  import opened Jobs
  import opened Records
  import opened FileSystem
  import opened Places

  /* ---------------------------------------------------------------------- */
  /* Pass 1: places whose file is gone                                       */
  /* ---------------------------------------------------------------------- */

  /**
   * A place the first pass removes: its folder is known and has a
   * filesystem, and its full path is blank or resolves to nothing.
   */
  predicate Unresolved(folders: seq<ImportFolder>, resolve: Resolver, q: Place) {
    match FolderById(folders, q.folderId)
    case None => false
    case Some(f) =>
      && f.online
      && (|| FullServerPath(folders, q).None?
          || IsBlank(FullServerPath(folders, q).value)
          || resolve(FullServerPath(folders, q).value).Missing?)
  }

  function UnresolvedOf(folders: seq<ImportFolder>, resolve: Resolver, ps: seq<Place>): seq<Place> {
    Filter(ps, (q: Place) => Unresolved(folders, resolve, q))
  }

  /** The places of the folders in `keys`, one folder after the other. */
  function Groups(keys: seq<int>, ps: seq<Place>): (r: seq<Place>)
    ensures forall q :: q in r <==> q in ps && q.folderId in keys
  {
    if keys == [] then []
    else Filter(ps, (q: Place) => q.folderId == keys[0]) + Groups(keys[1..], ps)
  }

  /** With each folder listed once, the groups hold every selected place exactly as often as `ps` does. */
  lemma {:induction false} GroupsMultiset(keys: seq<int>, ps: seq<Place>)
    requires Distinct(keys)
    ensures multiset(Groups(keys, ps)) == multiset(Filter(ps, (q: Place) => q.folderId in keys))
  {
    if keys != [] {
      var k := keys[0];
      var rest := keys[1..];
      assert Distinct(rest) by {
        forall i, j | 0 <= i < j < |rest| ensures rest[i] != rest[j] {
          assert rest[i] == keys[i + 1] && rest[j] == keys[j + 1];
        }
      }
      assert k !in rest by {
        forall i | 0 <= i < |rest| ensures rest[i] != k {
          assert rest[i] == keys[i + 1];
        }
      }
      GroupsMultiset(rest, ps);
      forall y: Place
        ensures multiset(Groups(keys, ps))[y] == multiset(Filter(ps, (q: Place) => q.folderId in keys))[y]
      {
        FilterMultiplicity(ps, (q: Place) => q.folderId == k, y);
        FilterMultiplicity(ps, (q: Place) => q.folderId in rest, y);
        FilterMultiplicity(ps, (q: Place) => q.folderId in keys, y);
      }
    }
  }

  /** The places of any one folder stand next to each other. */
  predicate Contiguous(r: seq<Place>) {
    forall i, j, k :: 0 <= i < j < k < |r| && r[i].folderId == r[k].folderId ==> r[j].folderId == r[i].folderId
  }

  /** One folder's block in front of a contiguous run that never mentions that folder is contiguous. */
  lemma BlockThenContiguous(a: seq<Place>, b: seq<Place>, key: int)
    requires forall q :: q in a ==> q.folderId == key
    requires forall q :: q in b ==> q.folderId != key
    requires Contiguous(b)
    ensures Contiguous(a + b)
  {
    var r := a + b;
    forall i, j, k | 0 <= i < j < k < |r| && r[i].folderId == r[k].folderId
      ensures r[j].folderId == r[i].folderId
    {
      if k < |a| {
        assert r[i] == a[i] && r[j] == a[j];
      } else if i >= |a| {
        assert r[i] == b[i - |a|] && r[j] == b[j - |a|] && r[k] == b[k - |a|];
      }
    }
  }

  /** With each folder listed once, the places of one folder stand next to each other. */
  lemma {:induction false} GroupsContiguous(keys: seq<int>, ps: seq<Place>)
    requires Distinct(keys)
    ensures Contiguous(Groups(keys, ps))
  {
    if keys != [] {
      var rest := keys[1..];
      assert Distinct(rest) by {
        forall i, j | 0 <= i < j < |rest| ensures rest[i] != rest[j] {
          assert rest[i] == keys[i + 1] && rest[j] == keys[j + 1];
        }
      }
      assert keys[0] !in rest by {
        forall i | 0 <= i < |rest| ensures rest[i] != keys[0] {
          assert rest[i] == keys[i + 1];
        }
      }
      GroupsContiguous(rest, ps);
      BlockThenContiguous(Filter(ps, (q: Place) => q.folderId == keys[0]), Groups(rest, ps), keys[0]);
    }
  }

  /**
   * `GroupBy(ImportFolder)` flattened: the places of known folders, grouped
   * by folder, the groups in order of first appearance.
   */
  function ByFolder(folders: seq<ImportFolder>, ps: seq<Place>): (r: seq<Place>)
    ensures forall q :: q in r <==> q in ps && FolderById(folders, q.folderId).Some?
    ensures multiset(r) == multiset(Filter(ps, (q: Place) => FolderById(folders, q.folderId).Some?))
    ensures Contiguous(r)
  {
    var keys := GroupKeys(ps, (q: Place) => FolderById(folders, q.folderId).Some?, (q: Place) => q.folderId);
    GroupsMultiset(keys, ps);
    GroupsContiguous(keys, ps);
    forall q | q in ps
      ensures (q.folderId in keys) <==> FolderById(folders, q.folderId).Some?
    {
      var n :| 0 <= n < |ps| && ps[n] == q;
    }
    FilterExt(ps, (q: Place) => q.folderId in keys, (q: Place) => FolderById(folders, q.folderId).Some?);
    Groups(keys, ps)
  }

  /**
   * The first pass over a queue of places: each unresolved place is removed
   * with `RemoveRecordWithOpenTransaction`, against the store as the earlier
   * removals left it.
   */
  function Sweep(s: Store, resolve: Resolver, queue: seq<Place>): (r: Removal)
    ensures forall q :: q in r.store.places <==>
      q in s.places && q.id !in Ids(UnresolvedOf(s.folders, resolve, queue))
    ensures r.store.folders == s.folders
    ensures forall v :: v in r.store.files ==> v in s.files
    ensures forall j :: j in r.jobs ==> j.DeleteFileFromMyListByHash?
    ensures UniqueFileIds(s.files) ==> UniqueFileIds(r.store.files)
    decreases queue
  {
    if queue == [] then Removal(s, [])
    else
      var p := queue[0];
      var step := if Unresolved(s.folders, resolve, p) then RemoveRecordInTransaction(s, p) else Removal(s, []);
      var rest := Sweep(step.store, resolve, queue[1..]);
      Removal(rest.store, step.jobs + rest.jobs)
  }

  /** The first pass: the places of every online folder, folder by folder. */
  function RemoveMissing(s: Store, resolve: Resolver): (r: Removal)
    ensures forall q :: q in r.store.places <==>
      q in s.places && q.id !in Ids(UnresolvedOf(s.folders, resolve, s.places))
    ensures r.store.folders == s.folders
    ensures forall v :: v in r.store.files ==> v in s.files
    ensures forall j :: j in r.jobs ==> j.DeleteFileFromMyListByHash?
    ensures UniqueFileIds(s.files) ==> UniqueFileIds(r.store.files)
  {
    var queue := ByFolder(s.folders, s.places);
    SameIdsQueued(s, resolve, queue);
    Sweep(s, resolve, queue)
  }

  lemma SameIdsQueued(s: Store, resolve: Resolver, queue: seq<Place>)
    requires forall q :: q in queue <==> q in s.places && FolderById(s.folders, q.folderId).Some?
    ensures Ids(UnresolvedOf(s.folders, resolve, queue)) == Ids(UnresolvedOf(s.folders, resolve, s.places))
  {
    var a := UnresolvedOf(s.folders, resolve, queue);
    var b := UnresolvedOf(s.folders, resolve, s.places);
    assert forall q :: q in a <==> q in b;
  }

  /**
   * With place ids as keys, the first pass removes exactly the unresolved
   * places of online folders and keeps every other place.
   */
  lemma RemoveMissingExactly(s: Store, resolve: Resolver)
    requires UniquePlaceIds(s.places)
    ensures forall q :: q in RemoveMissing(s, resolve).store.places <==>
      q in s.places && !Unresolved(s.folders, resolve, q)
  {
    var doomed := UnresolvedOf(s.folders, resolve, s.places);
    forall q | q in s.places && q.id in Ids(doomed)
      ensures Unresolved(s.folders, resolve, q)
    {
      var d :| d in doomed && d.id == q.id;
      KeysUniqueMember(s.places, (p: Place) => p.id, q, d);
    }
    forall q | q in s.places && Unresolved(s.folders, resolve, q)
      ensures q.id in Ids(doomed)
    {
      assert q in doomed;
    }
  }

  /* ---------------------------------------------------------------------- */
  /* Pass 2: empty records                                                   */
  /* ---------------------------------------------------------------------- */

  /** `VideoLocal.Delete(all.Where(IsEmpty))`. */
  function DeleteEmpty(s: Store, isEmpty: VideoLocal -> bool): (r: Store)
    ensures forall v :: v in r.files <==> v in s.files && !isEmpty(v)
    ensures r.places == s.places && r.folders == s.folders && r.dups == s.dups
  {
    s.(files := Filter(s.files, (v: VideoLocal) => !isEmpty(v)))
  }

  /* ---------------------------------------------------------------------- */
  /* Pass 3: records sharing a hash                                          */
  /* ---------------------------------------------------------------------- */

  /** A comparer `List.Sort` can use: total and transitive. */
  ghost predicate TotalPreorder(le: (VideoLocal, VideoLocal) -> bool) {
    && (forall a, b :: le(a, b) || le(b, a))
    && (forall a, b, c :: le(a, b) && le(b, c) ==> le(a, c))
  }

  /**
   * `values.Sort(comparer).First()`: a least record of a non-empty group.
   * The sort is not stable, so which of several equally least records comes
   * first is not fixed by the source; the model takes one of them.
   */
  function Least(group: seq<VideoLocal>, le: (VideoLocal, VideoLocal) -> bool): (m: VideoLocal)
    requires group != [] && TotalPreorder(le)
    ensures m in group
    ensures forall x :: x in group ==> le(m, x)
  {
    if |group| == 1 then group[0]
    else
      var m := Least(group[1..], le);
      assert forall x :: x in group ==> x == group[0] || x in group[1..];
      if le(group[0], m) then
        assert forall x :: x in group[1..] ==> le(m, x) && le(group[0], x);
        group[0]
      else m
  }

  /** The hashes of the snapshot's records. */
  function Hashes(all: seq<VideoLocal>): set<string> {
    set v | v in all :: v.hash
  }

  /** The records with hash `h`, in snapshot order. */
  function Group(all: seq<VideoLocal>, h: string): (r: seq<VideoLocal>)
    ensures forall v :: v in r <==> v in all && v.hash == h
  {
    Filter(all, (v: VideoLocal) => v.hash == h)
  }

  /** The record of hash `h` that the merge keeps (`to`). */
  function Survivor(all: seq<VideoLocal>, le: (VideoLocal, VideoLocal) -> bool, h: string): (m: VideoLocal)
    requires TotalPreorder(le)
    requires h in Hashes(all)
    ensures m in all && m.hash == h
    ensures forall v :: v in all && v.hash == h ==> le(m, v)
  {
    Least(Group(all, h), le)
  }

  /** The records of hash `h` that the merge deletes (`froms`). */
  function Losers(all: seq<VideoLocal>, le: (VideoLocal, VideoLocal) -> bool, h: string): (r: seq<VideoLocal>)
    requires TotalPreorder(le)
    requires h in Hashes(all)
    ensures forall v :: v in r <==> v in all && v.hash == h && v != Survivor(all, le, h)
  {
    Filter(Group(all, h), (v: VideoLocal) => v != Survivor(all, le, h))
  }

  /** The keys of the hash groups: every non-blank hash of the snapshot, once, in order of first appearance. */
  function HashKeys(all: seq<VideoLocal>): (r: seq<string>)
    ensures Distinct(r)
    ensures forall h :: h in r ==> !IsBlank(h) && h in Hashes(all)
    ensures forall v :: v in all && !IsBlank(v.hash) ==> v.hash in r
  {
    GroupKeys(all, (v: VideoLocal) => !IsBlank(v.hash), (v: VideoLocal) => v.hash)
  }

  /** A record the merge deletes: it has a non-blank hash and is not its group's survivor. */
  predicate Loser(all: seq<VideoLocal>, le: (VideoLocal, VideoLocal) -> bool, v: VideoLocal)
    requires TotalPreorder(le)
  {
    v in all && !IsBlank(v.hash) && v != Survivor(all, le, v.hash)
  }

  /** `place.VideoLocalID = to` for the places of one record. */
  function RePoint(ps: seq<Place>, fromId: int, toId: int): (r: seq<Place>)
    ensures |r| == |ps|
    ensures forall i :: 0 <= i < |ps| ==> r[i] == (if ps[i].fileId == fromId then ps[i].(fileId := toId) else ps[i])
  {
    seq(|ps|, i requires 0 <= i < |ps| => if ps[i].fileId == fromId then ps[i].(fileId := toId) else ps[i])
  }

  function FileIds(vs: seq<VideoLocal>): set<int> {
    set v | v in vs :: v.id
  }

  /**
   * The loop over the losers of one group, each re-pointing the places it
   * has at that moment: the same as re-pointing, in one step, every place
   * of any loser.
   */
  function RePointAll(ps: seq<Place>, froms: seq<VideoLocal>, toId: int): (r: seq<Place>)
    ensures |r| == |ps|
    ensures forall i :: 0 <= i < |ps| ==>
      r[i] == (if ps[i].fileId in FileIds(froms) then ps[i].(fileId := toId) else ps[i])
    decreases froms
  {
    if froms == [] then ps
    else
      assert FileIds(froms) == {froms[0].id} + FileIds(froms[1..]);
      RePointAll(RePoint(ps, froms[0].id, toId), froms[1..], toId)
  }

  /** What the loop over the hash groups leaves: the re-pointed places and `toRemove`. */
  datatype Merge = Merge(places: seq<Place>, toRemove: seq<VideoLocal>)

  /**
   * The loop over the hash groups `keys`: in each, the survivor takes over
   * the places of the losers, and the losers are collected for deletion.
   * No place is dropped and only file ids change.
   */
  function MergeGroups(all: seq<VideoLocal>, le: (VideoLocal, VideoLocal) -> bool, keys: seq<string>, ps: seq<Place>): (r: Merge)
    requires TotalPreorder(le)
    requires forall h :: h in keys ==> h in Hashes(all)
    ensures |r.places| == |ps|
    ensures forall i :: 0 <= i < |ps| ==> r.places[i] == ps[i].(fileId := r.places[i].fileId)
    ensures forall v :: v in r.toRemove <==> v in all && v.hash in keys && v != Survivor(all, le, v.hash)
    decreases keys
  {
    if keys == [] then Merge(ps, [])
    else
      var h := keys[0];
      var to := Survivor(all, le, h);
      var froms := Losers(all, le, h);
      var rest := MergeGroups(all, le, keys[1..], RePointAll(ps, froms, to.id));
      Merge(rest.places, froms + rest.toRemove)
  }

  /**
   * The third pass over the snapshot `all` of the records: places are
   * re-pointed and every loser is deleted from the store.
   */
  function MergeDuplicates(s: Store, all: seq<VideoLocal>, le: (VideoLocal, VideoLocal) -> bool): (r: Store)
    requires TotalPreorder(le)
    ensures |r.places| == |s.places|
    ensures forall i :: 0 <= i < |s.places| ==> r.places[i] == s.places[i].(fileId := r.places[i].fileId)
    ensures forall v :: v in r.files <==> v in s.files && !Loser(all, le, v)
    ensures r.folders == s.folders && r.dups == s.dups
  {
    var m := MergeGroups(all, le, HashKeys(all), s.places);
    s.(places := m.places, files := Filter(s.files, (v: VideoLocal) => v !in m.toRemove))
  }

  /**
   * After the merge no two records of the snapshot share a non-blank hash:
   * each hash group keeps exactly its survivor, if that was still present.
   */
  lemma MergeKeepsOnePerHash(s: Store, all: seq<VideoLocal>, le: (VideoLocal, VideoLocal) -> bool)
    requires TotalPreorder(le)
    requires forall v :: v in s.files ==> v in all
    ensures var r := MergeDuplicates(s, all, le);
      forall v, w :: v in r.files && w in r.files && v.hash == w.hash && !IsBlank(v.hash) ==> v == w
    ensures var r := MergeDuplicates(s, all, le);
      forall v :: v in all && !IsBlank(v.hash) ==> (Survivor(all, le, v.hash) in r.files <==> Survivor(all, le, v.hash) in s.files)
  {
  }

  /** The record with a given id, if the snapshot has one. */
  function RecordOf(all: seq<VideoLocal>, id: int): (r: Option<VideoLocal>)
    ensures r.Some? ==> r.value in all && r.value.id == id
    ensures r.None? ==> forall v :: v in all ==> v.id != id
  {
    if all == [] then None
    else if all[0].id == id then Some(all[0])
    else RecordOf(all[1..], id)
  }

  lemma RecordOfMember(all: seq<VideoLocal>, v: VideoLocal)
    requires UniqueFileIds(all) && v in all
    ensures RecordOf(all, v.id) == Some(v)
  {
    KeysUniqueMember(all, (w: VideoLocal) => w.id, RecordOf(all, v.id).value, v);
  }

  /**
   * Reference definition of where the merge sends a place of file `id`: to
   * the survivor of that file's hash when the hash is one of `keys`,
   * nowhere otherwise.
   */
  function Redirect(all: seq<VideoLocal>, le: (VideoLocal, VideoLocal) -> bool, keys: seq<string>, id: int): int
    requires TotalPreorder(le)
  {
    match RecordOf(all, id)
    case None => id
    case Some(v) => if v.hash in keys then Survivor(all, le, v.hash).id else id
  }

  /**
   * With file ids as keys, the loop over the groups sends every place
   * where `Redirect` says, whatever the order of the groups.
   */
  lemma {:induction false} MergeGroupsRedirects(all: seq<VideoLocal>, le: (VideoLocal, VideoLocal) -> bool, keys: seq<string>, ps: seq<Place>)
    requires TotalPreorder(le) && UniqueFileIds(all)
    requires Distinct(keys)
    requires forall h :: h in keys ==> h in Hashes(all)
    ensures forall i :: 0 <= i < |ps| ==>
      MergeGroups(all, le, keys, ps).places[i].fileId == Redirect(all, le, keys, ps[i].fileId)
    decreases keys
  {
    if keys != [] {
      var h := keys[0];
      var rest := keys[1..];
      var to := Survivor(all, le, h);
      var froms := Losers(all, le, h);
      var next := RePointAll(ps, froms, to.id);
      assert Distinct(rest) by {
        forall i, j | 0 <= i < j < |rest| ensures rest[i] != rest[j] {
          assert rest[i] == keys[i + 1] && rest[j] == keys[j + 1];
        }
      }
      assert h !in rest by {
        forall i | 0 <= i < |rest| ensures rest[i] != h {
          assert rest[i] == keys[i + 1];
        }
      }
      MergeGroupsRedirects(all, le, rest, next);
      RecordOfMember(all, to);
      forall i | 0 <= i < |ps|
        ensures MergeGroups(all, le, keys, ps).places[i].fileId == Redirect(all, le, keys, ps[i].fileId)
      {
        var id := ps[i].fileId;
        if id in FileIds(froms) {
          var w :| w in froms && w.id == id;
          RecordOfMember(all, w);
          assert next[i].fileId == to.id;
        } else {
          assert next[i] == ps[i];
          match RecordOf(all, id)
          case None =>
          case Some(u) =>
            if u.hash == h {
              assert u == to;
            }
        }
      }
    }
  }

  /**
   * With file ids as keys, every place of a losing record ends up on the
   * survivor of its hash, and no place is left on a deleted loser.
   */
  lemma MergeRePointsLosers(s: Store, all: seq<VideoLocal>, le: (VideoLocal, VideoLocal) -> bool)
    requires TotalPreorder(le) && UniqueFileIds(all)
    ensures var r := MergeDuplicates(s, all, le);
      forall i, v :: 0 <= i < |s.places| && v in all && s.places[i].fileId == v.id && !IsBlank(v.hash) ==>
        r.places[i].fileId == Survivor(all, le, v.hash).id
    ensures var r := MergeDuplicates(s, all, le);
      forall i, v :: 0 <= i < |s.places| && Loser(all, le, v) ==> r.places[i].fileId != v.id
  {
    var keys := HashKeys(all);
    MergeGroupsRedirects(all, le, keys, s.places);
    forall v | v in all
      ensures RecordOf(all, v.id) == Some(v)
    {
      RecordOfMember(all, v);
    }
    forall i, v | 0 <= i < |s.places| && Loser(all, le, v)
      ensures Redirect(all, le, keys, s.places[i].fileId) != v.id
    {
      var id := s.places[i].fileId;
      match RecordOf(all, id)
      case None =>
      case Some(u) =>
        var t := Survivor(all, le, u.hash);
        if u.hash in keys {
          assert t.id == v.id ==> t == v;
        } else {
          assert u.id == v.id ==> u == v;
        }
    }
  }

  /* ---------------------------------------------------------------------- */
  /* Pass 4: places without a path, duplicate places, records left empty     */
  /* ---------------------------------------------------------------------- */

  /** A place with a null or blank `FullServerPath`. */
  predicate PathBlank(folders: seq<ImportFolder>, q: Place) {
    FullServerPath(folders, q).None? || IsBlank(FullServerPath(folders, q).value)
  }

  /** The places of record `id` that have a usable path, in store order. */
  function PathedPlaces(s: Store, id: int): (r: seq<Place>)
    ensures forall q :: q in r <==> q in s.places && q.fileId == id && !PathBlank(s.folders, q)
  {
    Filter(PlacesOf(s, id), (q: Place) => !PathBlank(s.folders, q))
  }

  function Paths(folders: seq<ImportFolder>, ps: seq<Place>): set<Option<string>> {
    set q | q in ps :: FullServerPath(folders, q)
  }

  /** The index of the first place with full path `key`. */
  function FirstWithPath(folders: seq<ImportFolder>, ps: seq<Place>, key: Option<string>): (i: nat)
    requires key in Paths(folders, ps)
    ensures i < |ps| && FullServerPath(folders, ps[i]) == key
    ensures forall j :: 0 <= j < i ==> FullServerPath(folders, ps[j]) != key
  {
    if FullServerPath(folders, ps[0]) == key then 0
    else
      assert key in Paths(folders, ps[1..]) by {
        var q :| q in ps && FullServerPath(folders, q) == key;
        var k :| 0 <= k < |ps| && ps[k] == q;
        assert ps[1..][k - 1] == q;
      }
      1 + FirstWithPath(folders, ps[1..], key)
  }

  /**
   * `DistinctBy(FullServerPath)` with the paths already `seen`: each path
   * once, carried by the first place that has it.
   */
  function DistinctByPath(folders: seq<ImportFolder>, ps: seq<Place>, seen: set<Option<string>>): (r: seq<Place>)
    ensures forall i :: 0 <= i < |r| ==> r[i] in ps && FullServerPath(folders, r[i]) !in seen
    ensures forall i, j :: 0 <= i < j < |r| ==> FullServerPath(folders, r[i]) != FullServerPath(folders, r[j])
    ensures Paths(folders, ps) <= seen + Paths(folders, r)
    ensures forall i :: 0 <= i < |r| ==> r[i] == ps[FirstWithPath(folders, ps, FullServerPath(folders, r[i]))]
    ensures ps != [] && seen == {} ==> r != []
  {
    if ps == [] then []
    else
      var key := FullServerPath(folders, ps[0]);
      if key in seen then
        var r := DistinctByPath(folders, ps[1..], seen);
        assert Paths(folders, ps) == {key} + Paths(folders, ps[1..]);
        r
      else
        var rest := DistinctByPath(folders, ps[1..], seen + {key});
        assert Paths(folders, ps) == {key} + Paths(folders, ps[1..]);
        [ps[0]] + rest
  }

  /** The places of record `v` the last pass keeps. */
  function KeptPlaces(s: Store, v: VideoLocal): seq<Place> {
    DistinctByPath(s.folders, PathedPlaces(s, v.id), {})
  }

  /** `VideoLocal_Place.Delete(places)`. */
  function DropPlaces(s: Store, doomed: seq<Place>): (r: Store)
    ensures forall q :: q in r.places <==> q in s.places && q !in doomed
    ensures r.files == s.files && r.folders == s.folders && r.dups == s.dups
  {
    s.(places := Filter(s.places, (q: Place) => q !in doomed))
  }

  /** `places.Except(distinct)`: the places to delete as duplicates. */
  function Surplus(now: seq<Place>, kept: seq<Place>): (r: seq<Place>)
    ensures forall q :: q in r <==> q in now && q !in kept
  {
    Filter(now, (q: Place) => q !in kept)
  }

  /** The places of record `id` without a usable path. */
  function BlankPlaces(s: Store, id: int): (r: seq<Place>)
    ensures forall q :: q in r <==> q in s.places && q.fileId == id && PathBlank(s.folders, q)
  {
    Filter(PlacesOf(s, id), (q: Place) => PathBlank(s.folders, q))
  }

  /** What deleting one record's places does to another record's places: nothing. */
  lemma {:induction false} PlacesOfDrop(s: Store, doomed: seq<Place>, id: int)
    requires forall q :: q in doomed ==> q.fileId != id
    ensures PlacesOf(DropPlaces(s, doomed), id) == PlacesOf(s, id)
  {
    FilterFilter(s.places, (q: Place) => q !in doomed, (q: Place) => q.fileId == id, (q: Place) => q.fileId == id);
  }

  /** Once its blank places are gone, a record's places are its usable ones, in the same order. */
  lemma {:induction false} DropBlank(s: Store, id: int)
    ensures PlacesOf(DropPlaces(s, BlankPlaces(s, id)), id) == PathedPlaces(s, id)
  {
    var blank := BlankPlaces(s, id);
    FilterFilter(s.places, (q: Place) => q !in blank, (q: Place) => q.fileId == id,
                 (q: Place) => q.fileId == id && !PathBlank(s.folders, q));
    FilterFilter(s.places, (q: Place) => q.fileId == id, (q: Place) => !PathBlank(s.folders, q),
                 (q: Place) => q.fileId == id && !PathBlank(s.folders, q));
  }

  lemma DistinctSingle(folders: seq<ImportFolder>, ps: seq<Place>)
    requires |ps| == 1
    ensures DistinctByPath(folders, ps, {}) == ps
  {
    assert ps[1..] == [];
  }

  lemma KeptIffLeft(s: Store, kept: seq<Place>, id: int)
    requires forall q: Place :: q.fileId == id ==> (q in s.places <==> q in kept)
    requires forall q :: q in kept ==> q.fileId == id
    ensures |PlacesOf(s, id)| > 0 <==> kept != []
  {
    if kept != [] {
      assert kept[0] in PlacesOf(s, id);
    }
    if |PlacesOf(s, id)| > 0 {
      assert PlacesOf(s, id)[0] in kept;
    }
  }

  /**
   * The last pass for one record `v` of the snapshot: delete its places
   * without a path, keep the first place per full path, and when none is
   * left delete `v` and queue a MyList deletion by its MyList id. A record
   * with exactly one usable place keeps it.
   */
  function CleanRecord(s: Store, v: VideoLocal): (r: Removal)
    ensures r.store.folders == s.folders && r.store.dups == s.dups
    ensures forall q: Place :: q.fileId != v.id ==> (q in r.store.places <==> q in s.places)
    ensures forall q: Place :: q.fileId == v.id ==> (q in r.store.places <==> q in KeptPlaces(s, v))
    ensures forall w :: w in r.store.files <==> w in s.files && (w != v || PathedPlaces(s, v.id) != [])
    ensures r.jobs == OrphanJobs(s, [v])
    ensures forall q :: q in r.store.places ==> q in s.places
    ensures forall j :: j in r.jobs ==> j == DeleteFileFromMyList(v.myListId)
  {
    var s1 := DropPlaces(s, BlankPlaces(s, v.id));
    var now := PlacesOf(s1, v.id);
    DropBlank(s, v.id);
    var kept := DistinctByPath(s.folders, now, {});
    if |now| == 1 then
      DistinctSingle(s.folders, now);
      Removal(s1, [])
    else
      var s2 := DropPlaces(s1, Surplus(now, kept));
      KeptIffLeft(s2, kept, v.id);
      if |PlacesOf(s2, v.id)| > 0 then
        Removal(s2, [])
      else
        Removal(s2.(files := Filter(s2.files, (w: VideoLocal) => w != v)), [DeleteFileFromMyList(v.myListId)])
  }

  /** The last pass: every record of the snapshot in turn; the jobs are the ones it queues. */
  function CleanRecords(s: Store, vs: seq<VideoLocal>): (r: Removal)
    ensures r.store.folders == s.folders
    ensures forall q: Place :: q.fileId !in FileIds(vs) ==> (q in r.store.places <==> q in s.places)
    ensures forall w :: w in r.store.files ==> w in s.files
    ensures forall q :: q in r.store.places ==> q in s.places
    ensures forall j :: j in r.jobs ==> j.DeleteFileFromMyList? && exists v :: v in vs && j.myListId == v.myListId
    decreases vs
  {
    if vs == [] then Removal(s, [])
    else
      assert FileIds(vs) == {vs[0].id} + FileIds(vs[1..]);
      var first := CleanRecord(s, vs[0]);
      var rest := CleanRecords(first.store, vs[1..]);
      Removal(rest.store, first.jobs + rest.jobs)
  }

  /** Reference definition of the jobs the last pass queues: one per record with no usable place. */
  function OrphanJobs(s: Store, vs: seq<VideoLocal>): seq<Command> {
    if vs == [] then []
    else
      (if PathedPlaces(s, vs[0].id) == [] then [DeleteFileFromMyList(vs[0].myListId)] else [])
      + OrphanJobs(s, vs[1..])
  }

  /** Cleaning one record leaves another record's usable places as they were. */
  lemma {:induction false} PathedAfterClean(s: Store, v: VideoLocal, id: int)
    requires id != v.id
    ensures PathedPlaces(CleanRecord(s, v).store, id) == PathedPlaces(s, id)
  {
    var s1 := DropPlaces(s, BlankPlaces(s, v.id));
    PlacesOfDrop(s, BlankPlaces(s, v.id), id);
    var now := PlacesOf(s1, v.id);
    var kept := DistinctByPath(s.folders, now, {});
    if |now| != 1 {
      var s2 := DropPlaces(s1, Surplus(now, kept));
      PlacesOfDrop(s1, Surplus(now, kept), id);
      assert PlacesOf(s2.(files := Filter(s2.files, (w: VideoLocal) => w != v)), id) == PlacesOf(s2, id);
    }
  }

  lemma {:induction false} OrphanJobsAfterClean(s: Store, v: VideoLocal, vs: seq<VideoLocal>)
    requires v.id !in FileIds(vs)
    ensures OrphanJobs(CleanRecord(s, v).store, vs) == OrphanJobs(s, vs)
    decreases vs
  {
    if vs != [] {
      assert vs[0] in vs;
      PathedAfterClean(s, v, vs[0].id);
      assert FileIds(vs) == {vs[0].id} + FileIds(vs[1..]);
      OrphanJobsAfterClean(s, v, vs[1..]);
    }
  }

  lemma TailIds(vs: seq<VideoLocal>)
    requires vs != [] && UniqueFileIds(vs)
    ensures UniqueFileIds(vs[1..])
    ensures vs[0].id !in FileIds(vs[1..])
  {
    var tail := vs[1..];
    forall i, j | 0 <= i < j < |tail| ensures tail[i].id != tail[j].id {
      assert tail[i] == vs[i + 1] && tail[j] == vs[j + 1];
    }
    forall w | w in tail ensures w.id != vs[0].id {
      var k :| 0 <= k < |tail| && tail[k] == w;
      assert vs[k + 1] == w;
    }
  }

  /**
   * With file ids as keys, the last pass queues exactly one MyList deletion
   * per record of the snapshot that had no usable place, in snapshot order.
   */
  lemma {:induction false} CleanRecordsJobs(s: Store, vs: seq<VideoLocal>)
    requires UniqueFileIds(vs)
    ensures CleanRecords(s, vs).jobs == OrphanJobs(s, vs)
    decreases vs
  {
    if vs != [] {
      TailIds(vs);
      CleanRecordsJobs(CleanRecord(s, vs[0]).store, vs[1..]);
      OrphanJobsAfterClean(s, vs[0], vs[1..]);
    }
  }

  /**
   * With file ids as keys, the last pass leaves each record of the snapshot
   * exactly its first place per full path.
   */
  lemma {:induction false} CleanRecordsPlaces(s: Store, vs: seq<VideoLocal>)
    requires UniqueFileIds(vs)
    ensures forall v, q: Place :: v in vs && q.fileId == v.id ==>
      (q in CleanRecords(s, vs).store.places <==> q in KeptPlaces(s, v))
    decreases vs
  {
    if vs != [] {
      var v0 := vs[0];
      var s1 := CleanRecord(s, v0).store;
      TailIds(vs);
      CleanRecordsPlaces(s1, vs[1..]);
      forall w | w in vs[1..]
        ensures KeptPlaces(s1, w) == KeptPlaces(s, w)
      {
        PathedAfterClean(s, v0, w.id);
      }
    }
  }

  /* ---------------------------------------------------------------------- */
  /* The whole sweep                                                         */
  /* ---------------------------------------------------------------------- */

  /**
   * `RemoveRecordsWithoutPhysicalFiles`. `isEmpty` is `VideoLocal.IsEmpty`
   * and `le` the `VideoLocalComparer`, neither of which is part of this
   * model. The snapshot of the records is taken after the first pass; the
   * last pass walks the whole snapshot, merged-away records included.
   */
  function RemoveRecordsWithoutPhysicalFiles(
    s: Store, resolve: Resolver, isEmpty: VideoLocal -> bool, le: (VideoLocal, VideoLocal) -> bool): (r: Removal)
    requires TotalPreorder(le)
    ensures r.store.folders == s.folders
    ensures forall v :: v in r.store.files ==> v in s.files && !isEmpty(v)
    ensures forall v, w :: v in r.store.files && w in r.store.files && v.hash == w.hash && !IsBlank(v.hash) ==> v == w
    ensures forall q :: q in r.store.places ==> !Unresolved(s.folders, resolve, q)
    ensures forall q :: q in r.store.places ==> exists p :: p in s.places && q == p.(fileId := q.fileId)
    ensures forall j :: j in r.jobs ==> j.DeleteFileFromMyListByHash? || j.DeleteFileFromMyList?
  {
    var swept := RemoveMissing(s, resolve);
    var all := swept.store.files;
    var s1 := DeleteEmpty(swept.store, isEmpty);
    var s2 := MergeDuplicates(s1, all, le);
    MergeKeepsOnePerHash(s1, all, le);
    var cleaned := CleanRecords(s2, all);
    SweptPlacesResolved(s, resolve, s1, s2, cleaned.store);
    Removal(cleaned.store, swept.jobs + cleaned.jobs)
  }

  /** Places only lose their file id along the later passes, and a place the first pass kept was resolved. */
  lemma SweptPlacesResolved(s: Store, resolve: Resolver, s1: Store, s2: Store, s3: Store)
    requires forall q :: q in s1.places ==> q in s.places && q.id !in Ids(UnresolvedOf(s.folders, resolve, s.places))
    requires |s2.places| == |s1.places| && forall i :: 0 <= i < |s1.places| ==> s2.places[i] == s1.places[i].(fileId := s2.places[i].fileId)
    requires forall q :: q in s3.places ==> q in s2.places
    ensures forall q :: q in s3.places ==> !Unresolved(s.folders, resolve, q)
    ensures forall q :: q in s3.places ==> exists p :: p in s.places && q == p.(fileId := q.fileId)
  {
    forall q | q in s3.places
      ensures !Unresolved(s.folders, resolve, q) && exists p :: p in s.places && q == p.(fileId := q.fileId)
    {
      var i :| 0 <= i < |s2.places| && s2.places[i] == q;
      var p := s1.places[i];
      assert q == p.(fileId := q.fileId);
      assert FullServerPath(s.folders, q) == FullServerPath(s.folders, p);
    }
  }

  /**
   * With file ids as keys, the sweep queues the first pass's MyList
   * deletions by hash, then one MyList deletion per record of the snapshot
   * that the merge left without a usable place, in snapshot order.
   */
  lemma RemoveRecordsJobs(s: Store, resolve: Resolver, isEmpty: VideoLocal -> bool, le: (VideoLocal, VideoLocal) -> bool)
    requires TotalPreorder(le) && UniqueFileIds(s.files)
    ensures var swept := RemoveMissing(s, resolve);
      var merged := MergeDuplicates(DeleteEmpty(swept.store, isEmpty), swept.store.files, le);
      RemoveRecordsWithoutPhysicalFiles(s, resolve, isEmpty, le).jobs == swept.jobs + OrphanJobs(merged, swept.store.files)
  {
    var swept := RemoveMissing(s, resolve);
    var merged := MergeDuplicates(DeleteEmpty(swept.store, isEmpty), swept.store.files, le);
    CleanRecordsJobs(merged, swept.store.files);
  }
}
