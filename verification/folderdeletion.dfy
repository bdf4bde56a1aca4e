/**
 * Deleting an import folder (`DeleteImportFolder`) and a cloud account with
 * all its import folders (`DeleteCloudAccount`). Both report failure by
 * returning a message; the empty string means success.
 */
module FolderDeletion {
  import opened Wrappers
  import opened Seqs
  import opened Text
  import opened Jobs
  import opened Records
  import opened Places

  /** What a deletion returns: its message (empty on success), the store after it and the jobs it queued. */
  datatype Deletion = Deletion(error: string, store: Store, jobs: seq<Command>)

  function FolderNotFound(id: int): string {
    "Could not find Import Folder ID: " + IntToString(id)
  }

  function AccountNotFound(id: int): string {
    "Could not find Cloud Account ID: " + IntToString(id)
  }

  /** `GetByImportFolder`: the places recorded under one import folder, in store order. */
  function FolderPlaces(s: Store, folderId: int): (r: seq<Place>)
    ensures forall q :: q in r <==> q in s.places && q.folderId == folderId
  {
    Filter(s.places, (q: Place) => q.folderId == folderId)
  }

  /** The place is the only one left of a file that still exists (`v?.Places.Count == 1`). */
  predicate LastPlace(s: Store, p: Place) {
    FileById(s, p.fileId).Some? && |PlacesOf(s, p.fileId)| == 1
  }

  /**
   * One iteration of the place loop: the place goes, and when it was its
   * file's last one the file goes too and a MyList deletion by MyList id is
   * queued. Duplicate-file entries are left to the folder-wide sweep.
   */
  function DeletePlaceRecord(s: Store, p: Place): (r: Removal)
    ensures forall q :: q in r.store.places <==> q in s.places && q.id != p.id
    ensures r.store.folders == s.folders && r.store.dups == s.dups
    ensures LastPlace(s, p) ==>
      && (forall w :: w in r.store.files <==> w in s.files && w.id != p.fileId)
      && r.jobs == [DeleteFileFromMyList(FileById(s, p.fileId).value.myListId)]
    ensures !LastPlace(s, p) ==> r.store.files == s.files && r.jobs == []
  {
    if LastPlace(s, p) then
      var v := FileById(s, p.fileId).value;
      Removal(WithoutFile(WithoutPlace(s, p.id), v.id), [DeleteFileFromMyList(v.myListId)])
    else
      Removal(WithoutPlace(s, p.id), [])
  }

  /** The place loop, over the snapshot taken before it starts; each count sees the deletions before it. */
  function DeletePlaces(s: Store, ps: seq<Place>): (r: Removal)
    decreases ps
    ensures r.store.folders == s.folders && r.store.dups == s.dups
    ensures forall q :: q in r.store.places <==> q in s.places && forall p :: p in ps ==> p.id != q.id
    ensures forall w :: w in r.store.files ==> w in s.files
    ensures forall c :: c in r.jobs ==> c.DeleteFileFromMyList?
  {
    if ps == [] then Removal(s, [])
    else
      var step := DeletePlaceRecord(s, ps[0]);
      var rest := DeletePlaces(step.store, ps[1..]);
      Removal(rest.store, step.jobs + rest.jobs)
  }

  /**
   * `DeleteImportFolder`: an unknown id is reported and changes nothing;
   * otherwise the folder's places go (with every file left without a
   * place), then the duplicate entries naming the folder on either side,
   * then the folder itself.
   */
  function DeleteImportFolder(s: Store, folderId: int): (r: Deletion)
    ensures FolderById(s.folders, folderId).None? ==> r == Deletion(FolderNotFound(folderId), s, [])
    ensures FolderById(s.folders, folderId).Some? ==>
      && r.error == ""
      && (forall f :: f in r.store.folders <==> f in s.folders && f.id != folderId)
      && (forall d :: d in r.store.dups <==> d in s.dups && d.folder1 != folderId && d.folder2 != folderId)
      && (forall q :: q in r.store.places ==> q in s.places && q.folderId != folderId)
      && (forall w :: w in r.store.files ==> w in s.files)
      && (forall c :: c in r.jobs ==> c.DeleteFileFromMyList?)
  {
    match FolderById(s.folders, folderId)
    case None => Deletion(FolderNotFound(folderId), s, [])
    case Some(_) =>
      var cleared := DeletePlaces(s, FolderPlaces(s, folderId));
      var st := cleared.store;
      var dups := Filter(Filter(st.dups, (d: DuplicateFile) => d.folder1 != folderId), (d: DuplicateFile) => d.folder2 != folderId);
      var folders := Filter(st.folders, (f: ImportFolder) => f.id != folderId);
      Deletion("", st.(dups := dups, folders := folders), cleared.jobs)
  }

  /* ---------------------------------------------------------------------- */
  /* Which files the place loop deletes                                     */
  /* ---------------------------------------------------------------------- */

  /** Every place of `w` is among `ps`, and there is at least one. */
  predicate Orphaned(s: Store, ps: seq<Place>, w: VideoLocal) {
    && (exists q :: q in ps && q.fileId == w.id)
    && (forall q :: q in s.places && q.fileId == w.id ==> q in ps)
  }

  /** With unique ids, a file's place list has one entry exactly when that entry is its only place. */
  lemma SoleEntry(s: Store, p: Place)
    requires UniquePlaceIds(s.places) && p in s.places
    ensures |PlacesOf(s, p.fileId)| == 1 <==> forall q :: q in s.places && q.fileId == p.fileId ==> q == p
  {
    var r := PlacesOf(s, p.fileId);
    FilterKeysUnique(s.places, (q: Place) => q.fileId == p.fileId, (q: Place) => q.id);
    if |r| == 1 {
      forall q | q in s.places && q.fileId == p.fileId ensures q == p {
        assert q == r[0] && p == r[0];
      }
    } else if |r| >= 2 {
      assert r[0].id != r[1].id;
      assert r[0] in s.places && r[0].fileId == p.fileId;
      assert r[1] in s.places && r[1].fileId == p.fileId;
    } else {
      assert p in r;
    }
  }

  /** One iteration deletes a file only when it was orphaned by the places still to go. */
  lemma StepDeletesOrphan(s: Store, ps: seq<Place>, w: VideoLocal)
    requires UniqueIds(s) && ps != [] && ps[0] in s.places
    requires w in s.files && w !in DeletePlaceRecord(s, ps[0]).store.files
    ensures Orphaned(s, ps, w)
    ensures DeletePlaceRecord(s, ps[0]).jobs == [DeleteFileFromMyList(w.myListId)]
  {
    var p := ps[0];
    var v := FileById(s, p.fileId).value;
    KeysUniqueMember(s.files, (u: VideoLocal) => u.id, v, w);
    SoleEntry(s, p);
  }

  /** A file the iteration keeps is orphaned afterwards, by the rest of the places, exactly when it was before. */
  lemma StepKeepsOrphaned(s: Store, ps: seq<Place>, w: VideoLocal)
    requires UniqueIds(s) && UniquePlaceIds(ps) && ps != [] && ps[0] in s.places
    requires w in DeletePlaceRecord(s, ps[0]).store.files
    ensures Orphaned(DeletePlaceRecord(s, ps[0]).store, ps[1..], w) <==> Orphaned(s, ps, w)
  {
    var p := ps[0];
    var after := DeletePlaceRecord(s, p).store;
    forall q | q in ps[1..] ensures q.id != p.id {
      var k :| 0 <= k < |ps[1..]| && ps[1..][k] == q;
      assert q == ps[k + 1];
    }
    forall q | q in s.places && q.id == p.id ensures q == p {
      KeysUniqueMember(s.places, (u: Place) => u.id, q, p);
    }
    if Orphaned(s, ps, w) && !(exists q :: q in ps[1..] && q.fileId == w.id) {
      OnlyPlaceLeft(s, ps, w);
    }
  }

  /** When `w` is orphaned and no later place is its own, the first place is its last one, so the iteration deletes it. */
  lemma OnlyPlaceLeft(s: Store, ps: seq<Place>, w: VideoLocal)
    requires UniqueIds(s) && ps != [] && ps[0] in s.places && w in s.files
    requires Orphaned(s, ps, w) && !(exists q :: q in ps[1..] && q.fileId == w.id)
    ensures w !in DeletePlaceRecord(s, ps[0]).store.files
  {
    var p := ps[0];
    var later := ps[1..];
    forall q | q in s.places && q.fileId == w.id ensures q == p {
      var k :| 0 <= k < |ps| && ps[k] == q;
      if k > 0 {
        assert later[k - 1] == q;
      }
    }
    SoleEntry(s, p);
    var v := FileById(s, p.fileId).value;
    KeysUniqueMember(s.files, (u: VideoLocal) => u.id, v, w);
  }

  /** Iterations keep ids unique and the remaining places in the store. */
  lemma StepKeepsKeys(s: Store, ps: seq<Place>)
    requires UniqueIds(s) && UniquePlaceIds(ps) && ps != [] && ps[0] in s.places
    requires forall q :: q in ps ==> q in s.places
    ensures UniqueIds(DeletePlaceRecord(s, ps[0]).store)
    ensures UniquePlaceIds(ps[1..])
    ensures forall q :: q in ps[1..] ==> q in DeletePlaceRecord(s, ps[0]).store.places
  {
    var p := ps[0];
    FilterKeysUnique(s.places, (q: Place) => q.id != p.id, (q: Place) => q.id);
    FilterKeysUnique(WithoutPlace(s, p.id).files, (v: VideoLocal) => v.id != p.fileId, (v: VideoLocal) => v.id);
    forall q | q in ps[1..] ensures q.id != p.id {
      var k :| 0 <= k < |ps[1..]| && ps[1..][k] == q;
      assert q == ps[k + 1];
    }
    FilterKeysUnique(ps, (q: Place) => q != p, (q: Place) => q.id);
    assert UniquePlaceIds(ps[1..]) by {
      forall i, j | 0 <= i < j < |ps[1..]| ensures ps[1..][i].id != ps[1..][j].id {
        assert ps[1..][i] == ps[i + 1] && ps[1..][j] == ps[j + 1];
      }
    }
  }

  /**
   * The place loop deletes exactly the files all of whose places it visits,
   * and queues one MyList deletion for each of them and for nothing else.
   */
  lemma {:induction false} DeletePlacesOrphans(s: Store, ps: seq<Place>)
    requires UniqueIds(s) && UniquePlaceIds(ps)
    requires forall q :: q in ps ==> q in s.places
    decreases ps
    ensures forall w :: w in DeletePlaces(s, ps).store.files <==> w in s.files && !Orphaned(s, ps, w)
    ensures forall c :: c in DeletePlaces(s, ps).jobs ==>
      exists w :: w in s.files && Orphaned(s, ps, w) && c == DeleteFileFromMyList(w.myListId)
    ensures forall w :: w in s.files && Orphaned(s, ps, w) ==> DeleteFileFromMyList(w.myListId) in DeletePlaces(s, ps).jobs
  {
    if ps != [] {
      var p := ps[0];
      var step := DeletePlaceRecord(s, p);
      var after := step.store;
      var rest := DeletePlaces(after, ps[1..]);
      StepKeepsKeys(s, ps);
      DeletePlacesOrphans(after, ps[1..]);
      forall w | w in s.files
        ensures w in rest.store.files <==> !Orphaned(s, ps, w)
        ensures Orphaned(s, ps, w) ==> DeleteFileFromMyList(w.myListId) in step.jobs + rest.jobs
      {
        if w in after.files {
          StepKeepsOrphaned(s, ps, w);
        } else {
          StepDeletesOrphan(s, ps, w);
        }
      }
      forall c | c in step.jobs + rest.jobs
        ensures exists w :: w in s.files && Orphaned(s, ps, w) && c == DeleteFileFromMyList(w.myListId)
      {
        if c in step.jobs {
          var v := FileById(s, p.fileId).value;
          assert v in s.files && v !in after.files;
          StepDeletesOrphan(s, ps, v);
        } else {
          var w :| w in after.files && Orphaned(after, ps[1..], w) && c == DeleteFileFromMyList(w.myListId);
          StepKeepsOrphaned(s, ps, w);
        }
      }
    }
  }

  /** The file has a place in the folder and none anywhere else. */
  predicate OnlyIn(s: Store, w: VideoLocal, folderId: int) {
    && (exists q :: q in s.places && q.fileId == w.id && q.folderId == folderId)
    && (forall q :: q in s.places && q.fileId == w.id ==> q.folderId == folderId)
  }

  /**
   * With unique ids, deleting a known folder removes exactly its places and
   * exactly the files that had places in it and nowhere else, queueing a
   * MyList deletion for each such file and nothing more.
   */
  lemma DeleteImportFolderRemovesOrphans(s: Store, folderId: int)
    requires UniqueIds(s) && FolderById(s.folders, folderId).Some?
    ensures var r := DeleteImportFolder(s, folderId);
      && (forall q :: q in r.store.places <==> q in s.places && q.folderId != folderId)
      && (forall w :: w in r.store.files <==> w in s.files && !OnlyIn(s, w, folderId))
      && (forall c :: c in r.jobs ==>
            exists w :: w in s.files && OnlyIn(s, w, folderId) && c == DeleteFileFromMyList(w.myListId))
      && (forall w :: w in s.files && OnlyIn(s, w, folderId) ==> DeleteFileFromMyList(w.myListId) in r.jobs)
  {
    var ps := FolderPlaces(s, folderId);
    FilterKeysUnique(s.places, (q: Place) => q.folderId == folderId, (q: Place) => q.id);
    DeletePlacesOrphans(s, ps);
    forall w | w in s.files ensures Orphaned(s, ps, w) <==> OnlyIn(s, w, folderId) {
    }
    forall q | q in s.places && q.folderId != folderId ensures forall p :: p in ps ==> p.id != q.id {
      forall p | p in ps ensures p.id != q.id {
        if p.id == q.id {
          KeysUniqueMember(s.places, (u: Place) => u.id, p, q);
        }
      }
    }
  }

  /* ---------------------------------------------------------------------- */
  /* Cloud accounts                                                         */
  /* ---------------------------------------------------------------------- */

  /** What `DeleteCloudAccount` returns, with the account ids left. */
  datatype AccountDeletion = AccountDeletion(error: string, store: Store, accounts: seq<int>, jobs: seq<Command>)

  /** `GetByCloudId`: the import folders of one cloud account, in store order. */
  function CloudFolders(s: Store, accountId: int): (r: seq<ImportFolder>)
    ensures forall f :: f in r <==> f in s.folders && f.cloudId == Some(accountId)
  {
    Filter(s.folders, (f: ImportFolder) => f.cloudId == Some(accountId))
  }

  /** The folder loop: the first failing deletion stops it, keeping what the earlier ones did. */
  function DeleteFolders(s: Store, fs: seq<ImportFolder>): (r: Deletion)
    decreases fs
    ensures r.error == "" ==> forall f :: f in fs ==> FolderById(r.store.folders, f.id).None?
    ensures r.error != "" ==> exists f :: f in fs && r.error == FolderNotFound(f.id)
    ensures forall f :: f in r.store.folders ==> f in s.folders
  {
    if fs == [] then Deletion("", s, [])
    else
      var first := DeleteImportFolder(s, fs[0].id);
      if first.error != "" then first
      else
        var rest := DeleteFolders(first.store, fs[1..]);
        Deletion(rest.error, rest.store, first.jobs + rest.jobs)
  }

  /**
   * `DeleteCloudAccount`: an unknown account is reported; otherwise its
   * folders are deleted one by one and the first failure is returned
   * without deleting the account; after all succeed the account goes.
   */
  function DeleteCloudAccount(s: Store, accounts: seq<int>, accountId: int): (r: AccountDeletion)
    ensures accountId !in accounts ==> r == AccountDeletion(AccountNotFound(accountId), s, accounts, [])
    ensures accountId in accounts && r.error == "" ==>
      && (forall a :: a in r.accounts <==> a in accounts && a != accountId)
      && (forall f :: f in r.store.folders ==> f in s.folders && f.cloudId != Some(accountId))
    ensures accountId in accounts && r.error != "" ==> r.accounts == accounts
  {
    if accountId !in accounts then AccountDeletion(AccountNotFound(accountId), s, accounts, [])
    else
      var d := DeleteFolders(s, CloudFolders(s, accountId));
      if d.error != "" then AccountDeletion(d.error, d.store, accounts, d.jobs)
      else AccountDeletion("", d.store, Filter(accounts, (a: int) => a != accountId), d.jobs)
  }

  /** With unique folder ids the folder loop never fails, and deletes exactly the listed folders. */
  lemma {:induction false} DeleteFoldersSucceeds(s: Store, fs: seq<ImportFolder>)
    requires UniqueFolderIds(s.folders) && UniqueFolderIds(fs)
    requires forall f :: f in fs ==> f in s.folders
    decreases fs
    ensures DeleteFolders(s, fs).error == ""
    ensures forall f :: f in DeleteFolders(s, fs).store.folders <==> f in s.folders && f !in fs
  {
    if fs != [] {
      var f0 := fs[0];
      assert FolderById(s.folders, f0.id).Some? by {
        assert f0.id == f0.id && f0 in s.folders;
      }
      var first := DeleteImportFolder(s, f0.id);
      FilterKeysUnique(s.folders, (f: ImportFolder) => f.id != f0.id, (f: ImportFolder) => f.id);
      assert UniqueFolderIds(first.store.folders) by {
        assert first.store.folders == Filter(s.folders, (f: ImportFolder) => f.id != f0.id);
      }
      forall f | f in fs[1..] ensures f.id != f0.id {
        var k :| 0 <= k < |fs[1..]| && fs[1..][k] == f;
        assert f == fs[k + 1];
      }
      assert UniqueFolderIds(fs[1..]) by {
        forall i, j | 0 <= i < j < |fs[1..]| ensures fs[1..][i].id != fs[1..][j].id {
          assert fs[1..][i] == fs[i + 1] && fs[1..][j] == fs[j + 1];
        }
      }
      DeleteFoldersSucceeds(first.store, fs[1..]);
      forall f | f in s.folders && f.id == f0.id ensures f == f0 {
        KeysUniqueMember(s.folders, (u: ImportFolder) => u.id, f, f0);
      }
    }
  }

  /** With unique folder ids, deleting a known account always succeeds and leaves none of its folders. */
  lemma DeleteCloudAccountComplete(s: Store, accounts: seq<int>, accountId: int)
    requires UniqueFolderIds(s.folders) && accountId in accounts
    ensures var r := DeleteCloudAccount(s, accounts, accountId);
      && r.error == ""
      && (forall a :: a in r.accounts <==> a in accounts && a != accountId)
      && (forall f :: f in r.store.folders <==> f in s.folders && f.cloudId != Some(accountId))
  {
    var fs := CloudFolders(s, accountId);
    FilterKeysUnique(s.folders, (f: ImportFolder) => f.cloudId == Some(accountId), (f: ImportFolder) => f.id);
    DeleteFoldersSucceeds(s, fs);
  }
}
