# Shoko Server media ingestion, modelled in Dafny

This project models the ingestion core of Shoko Server (formerly JMMServer), the server that catalogues anime files. It covers:

- **Importer**: it scans import folders and drop folders and queues hash jobs for new videos. It checks integrity: removing places whose file has gone, merging file records that share a hash, and dropping duplicate or path-less places. It deletes import folders and cloud accounts, queues capped TvDB and MovieDB image downloads, and runs the throttled periodic `CheckFor*` updates.
- **`SVR_VideoLocal_Place`**: the full path of a place, record removal and its cascade, deleting a file together with its record, renaming, and moving a file out of a drop folder. It also holds the retry ladder that runs both and the pruning of empty directories.
- **`RenameFileHelper`**: renamer registration, the enabled-renamer filter and three-key sort, rename-script lookup, and asking renamers for a file name or a destination.
- **`AniDB_TagRepository`**: the start-up repair of backticks in tag names and descriptions, and the tag lookups.
- **`AniDBUDP_BaseCommand`**: the response slot guarded by an executed flag.

The database is a value (`Records.Store`: import folders, video files, places and duplicate-file entries). A transactional block of the source is one function from store to store. Enqueued jobs are appended to a sequence of `Jobs.Command`. Everything outside the program is an input:

- the filesystem is an oracle from full path to entry, and each mutating call's outcome is another input;
- `File.Exists` is a predicate;
- the clock is a tick count;
- renamer plugins are functions from their registration to their answer;
- settings are records.

Null strings are modelled as the empty string wherever the source tests them with `IsNullOrEmpty`, and as `Option` elsewhere.

Modules, one per file: `Wrappers`, `Seqs`, `Text`, `Paths`, `FileSystem`, `Jobs`, `Records`, `Places`, `DirTree`, `Moving`, `Retry`, `Scanning`, `Reconcile`, `FolderDeletion`, `Images`, `Schedule`, `Renamers`, `Tags`, `Udp`.

## Model

| member | source | states |
|---|---|---|
| Places.FullServerPath | Shoko.Server/Models/SVR_VideoLocal_Place.cs:39-47 | Null when the folder is unknown or its location or the relative path is empty; otherwise a path that starts with the folder location and ends with the relative path. |
| Places.FromFullPath | Shoko.Server/Models/SVR_VideoLocal_Place.cs:104-110 | The folder found holds the path under its location, and the relative part is what follows that location. |
| Places.FullPathRoundTrip | Shoko.Server/Models/SVR_VideoLocal_Place.cs:104-110 | Splitting a full path into folder and relative path and combining them again gives back the same full path. |
| Places.RemoveRecord | Shoko.Server/Models/SVR_VideoLocal_Place.cs:121-157 | A missing file record is an error. Otherwise the place and the duplicate entries naming it go. The file record and a MyList deletion by hash and size follow only when this was the file's last place. |
| Places.RemoveRecordCascade | Shoko.Server/Models/SVR_VideoLocal_Place.cs:132-147 | With unique ids, the file record is deleted exactly when the removed place was its last one, and a surviving record keeps at least one place. |
| Places.RemoveRecordInTransaction | Shoko.Server/Models/SVR_VideoLocal_Place.cs:184-218 | Like `RemoveRecord`, but a missing file record fails the `Count <= 1` test, so only the place and its duplicate entries go. |
| Places.RemoveAndDeleteFile | Shoko.Server/Models/SVR_VideoLocal_Place.cs:343-392 | With nothing physical to delete, the record is removed and the answer is true. A failed delete returns false and leaves the record. A successful delete removes the record. |
| Places.SavePlace | Shoko.Server/Models/SVR_VideoLocal_Place.cs:110-111 | After saving, the places are the saved place plus exactly the earlier places with other ids, and files, folders and duplicates are unchanged. |
| Places.RenameFile | Shoko.Server/Models/SVR_VideoLocal_Place.cs:54-119 | An empty name or a missing or offline folder ends the call as done. An original that does not resolve asks for a retry. The same path ignoring case, or an existing target, is done with nothing renamed. A failed rename asks for a retry and a thrown one is done. A success is done exactly when the target lies in an import folder, and re-points the place at it. |
| Places.TargetRoundTrip | Shoko.Server/Models/SVR_VideoLocal_Place.cs:75-76 | A target built from a directory and a non-empty name splits into a non-empty relative path that combines back to it. |
| Places.RenameRoundTrip | Shoko.Server/Models/SVR_VideoLocal_Place.cs:75-111 | When the target found lies in the place's own import folder, a successful rename leaves the place's full path equal to the rename target, whose file name is the new name. |
| DirTree.Prune | Shoko.Server/Models/SVR_VideoLocal_Place.cs:811-836 | The root is never deleted, and no file is ever lost. A deleted directory held no files. Directories the pruning descended into keep no removable child. |
| DirTree.PruneAll | Shoko.Server/Models/SVR_VideoLocal_Place.cs:818-819 | Pruning the children keeps every file of every child, and leaves no removable child among those it kept. |
| Moving.DestinationFolder | Shoko.Server/Models/SVR_VideoLocal_Place.cs:546-566 | The first folder of the same cloud that is a drop destination, not a drop source, resolvable and (on another local drive) large enough; none when no folder qualifies. |
| Moving.Crossover | Shoko.Server/Models/SVR_VideoLocal_Place.cs:602-616 | An episode is a crossover exactly when two of its cross references name different anime. |
| Moving.SiblingInVideos | Shoko.Server/Models/SVR_VideoLocal_Place.cs:618-644 | A found directory belongs to a considered video of the episode and is an existing directory other than the current one. None means that no video of the episode offers one. This is the loop's answer when its place scans do not throw; `SearchThrows` decides when they do. |
| Moving.SiblingInVideosFirst | Shoko.Server/Models/SVR_VideoLocal_Place.cs:618-644 | The first video of the episode that offers an acceptable directory decides the answer. |
| Moving.SiblingDirectory | Shoko.Server/Models/SVR_VideoLocal_Place.cs:591-646 | Searches the series' episodes in the given order, skipping crossovers. The directory found is an acceptable sibling directory; none means there is no acceptable one anywhere in the series. |
| Moving.SiblingDirectoryFirst | Shoko.Server/Models/SVR_VideoLocal_Place.cs:591-646 | The first episode not passed over decides: its answer is the sibling directory of the whole series. |
| Moving.SeriesDirectory | Shoko.Server/Models/SVR_VideoLocal_Place.cs:648-681 | The fallback directory is the series name under the destination. It is created only when missing while the destination resolves, and is refused when a file holds the name. |
| Moving.SubtitleActions | Shoko.Server/Models/SVR_VideoLocal_Place.cs:760-786 | Each subtitle that exists is moved next to the target, or deleted when the target directory already has one by that name. Nothing else is touched. |
| Moving.DeleteInstead | Shoko.Server/Models/SVR_VideoLocal_Place.cs:706-736 | When the target exists, the source is deleted and its record removed instead of moving. The attempt asks for a retry exactly when the delete fails, and then changes no record. |
| Moving.MoveThere | Shoko.Server/Models/SVR_VideoLocal_Place.cs:743-801 | When the target is free, a successful move re-points the place at the target's folder and path. The attempt asks for a retry exactly when the move fails, and then changes nothing. |
| Moving.MoveInto | Shoko.Server/Models/SVR_VideoLocal_Place.cs:688-702 | A target outside every import folder, or equal to the current path ignoring case, ends the attempt with nothing changed. The attempt asks for a retry exactly when the target is in a folder, differs from the source, and the delete (target exists) or move (target free) fails. |
| Moving.MoveFileIfRequired | Shoko.Server/Models/SVR_VideoLocal_Place.cs:504-809 | Only a file in an online drop-source folder moves. An unresolvable source asks for a retry. Any retry comes from an online drop source whose file does not resolve or that reaches a move; every other early exit, including a sibling search that throws and is caught, is done with no change. Every outcome is consistent in the sense above. |
| Moving.MoveIntoSeries | Shoko.Server/Models/SVR_VideoLocal_Place.cs:591-686 | A sibling search that throws ends the attempt as done with nothing changed. Otherwise the target directory is a sibling directory when one exists, else the series folder, which is the only directory ever created. The attempt asks for a retry exactly when the search does not throw, that directory exists and the move into it stalls. |
| Moving.ScanThrows | Shoko.Server/Models/SVR_VideoLocal_Place.cs:618-625 | A place scan throws exactly when it reaches a place whose folder the store does not know, after every earlier place had a known folder that missed the test. |
| Moving.KnownFoldersNeverThrow | Shoko.Server/Models/SVR_VideoLocal_Place.cs:596-644 | When every place of the store lies in a known folder, the sibling search never throws. |
| Moving.DanglingSiblingEndsMove | Shoko.Server/Models/SVR_VideoLocal_Place.cs:618-620 | A video of the first non-crossover episode whose first place lies in an unknown folder makes the move attempt end as done with nothing changed, whatever the other videos offer. |
| Moving.NamedPathRoundTrip | Shoko.Server/Models/SVR_VideoLocal_Place.cs:689-690 | A target path that names a file splits into a folder and a non-empty relative path that combine back to it. |
| Moving.MoveRoundTrip | Shoko.Server/Models/SVR_VideoLocal_Place.cs:689-756 | After a successful move, the place's full path is the target the file was moved to, and the file keeps its name. |
| Moving.RenameIfRequired | Shoko.Server/Models/SVR_VideoLocal_Place.cs:488-501 | Without a default script, or when the lookup throws (the catch), the attempt succeeds and changes nothing. Otherwise its answer, records and place are those of `RenameFile`. |
| Moving.MoveAttempt | Shoko.Server/Models/SVR_VideoLocal_Place.cs:503-809 | One try of the move ladder: a failed try keeps the records, the place and the jobs, and a try only ever appends jobs and actions. |
| Moving.RenamePhaseFacts | Shoko.Server/Models/SVR_VideoLocal_Place.cs:443-462 | A failed rename phase leaves the records as they were. Without a default script, or when the first lookup throws, the phase is one successful try. |
| Moving.RenameAndMoveAsRequired | Shoko.Server/Models/SVR_VideoLocal_Place.cs:443-485 | As written: when every rename try fails, the records are unchanged and no move is tried. Without a default script, one rename try is made. The permissions step runs exactly when one of the first three move tries succeeded. |
| Moving.RenameAndMoveCorrected | Shoko.Server/Models/SVR_VideoLocal_Place.cs:443-485 | The corrected ladder on a place: the permissions step runs exactly when some move try succeeded. |
| Moving.PlaceLadderVersionsAgree | Shoko.Server/Models/SVR_VideoLocal_Place.cs:466-484 | Both ladders make the same tries and leave the same records; they part only when the move succeeds on its fourth try. |
| Retry.RunPhase | Shoko.Server/Models/SVR_VideoLocal_Place.cs:445-462 | At most four tries; every try but the last failed, and a failing last try is the fourth. Each try starts where the one before it left off, and the phase ends in the state its last try left. The phase succeeds exactly when its last try did. |
| Retry.FailedPhaseKeepsState | Shoko.Server/Models/SVR_VideoLocal_Place.cs:445-465 | When a failed try leaves the state as it found it, a phase whose last try failed ends in the state it started from. |
| Retry.RenameGivesUp | Shoko.Server/Models/SVR_VideoLocal_Place.cs:445-462 | A rename that never succeeds is tried four times, waiting 750, 3000 and 5000 ms in between, and the move is never tried. |
| Retry.RenameAndMoveAsWritten | Shoko.Server/Models/SVR_VideoLocal_Place.cs:466-479 | The move phase runs only after a successful rename. The permissions step runs only when one of the first three move tries succeeded. |
| Retry.FourthMoveIgnored | Shoko.Server/Models/SVR_VideoLocal_Place.cs:476-479 | A move that succeeds only on its fourth try skips the permissions step as written, and runs it once corrected. |
| Retry.RenameAndMove | Shoko.Server/Models/SVR_VideoLocal_Place.cs:466-484 | Corrected ladder: the permissions step runs exactly when the rename and some move try succeeded. |
| Retry.LadderVersionsAgree | Shoko.Server/Models/SVR_VideoLocal_Place.cs:466-484 | The two ladders make the same tries and leave the same state. Permissions as written imply permissions corrected, and they differ only for three failed moves followed by a success. |
| Scanning.ExceptFrom | Shoko.Server/Import/Importer.cs:162 | No result is case-insensitively equal to a path already seen or to another result; the result is a subsequence of the listing. |
| Scanning.ExceptFromComplete | Shoko.Server/Import/Importer.cs:162 | Every listed path whose folded form was not seen is represented in the result up to case. |
| Scanning.ExceptIgnoreCase | Shoko.Server/Import/Importer.cs:160-162 | No surviving path equals an ignored path ignoring case, and no two survivors are equal ignoring case. |
| Scanning.ExceptIgnoreCaseComplete | Shoko.Server/Import/Importer.cs:162 | Every listed path that matches no ignored path survives, up to case. |
| Scanning.CountAndQueue | Shoko.Server/Import/Importer.cs:165-187 | Counts every path outside a recycle bin, and every such video. Queues exactly one hash job per counted video, in listing order. |
| Scanning.HashesEveryVideo | Shoko.Server/Import/Importer.cs:174-186 | A listed video outside a recycle bin gets a hash job; a recycled path never does. |
| Scanning.IgnoredPaths | Shoko.Server/Import/Importer.cs:160-161 | Every entry is the non-empty full path of a place of an ignored file, and every such place's full path is listed. |
| Scanning.LastPlaceAt | Shoko.Server/Import/Importer.cs:140-154 | The dictionary entry for a path is the last place with that full path; a path no place has has no entry. |
| Scanning.Relocations | Shoko.Server/Import/Importer.cs:169-173 | Every request names a known place whose full path is in the listing. |
| Scanning.RelocationsExact | Shoko.Server/Import/Importer.cs:140-173 | Exactly one request per listed path that a known place points at, in listing order, naming the last place with that path. |
| Scanning.ScanFolder | Shoko.Server/Import/Importer.cs:124-195 | An unknown folder gives nothing. Otherwise the listing minus ignored paths is counted: one file per path outside a recycle bin and one video per such video, with exactly one hash job per video, in order, known paths included. Only a drop source asks for relocations, each naming a place of the folder at a listed path. |
| Scanning.ScanFolderHashesListed | Shoko.Server/Import/Importer.cs:160-187 | A listed path that no ignored path matches is counted up to case, and hashed when it is a video outside a recycle bin. |
| Scanning.ScanFolderRelocatesKnown | Shoko.Server/Import/Importer.cs:140-173 | In a drop source, every surviving listed path that a place of the folder points at relocates that path's last place. |
| Scanning.Gather | Shoko.Server/Import/Importer.cs:201-207 | Every gathered path comes from the listing of one of the folders, and every listed path of those folders is gathered. |
| Scanning.GatherAppend | Shoko.Server/Import/Importer.cs:201-207 | Gathering is concatenation in folder order: the listing of two folder lists is that of the first followed by that of the second, and one folder gives its own listing. |
| Scanning.DropFolders | Shoko.Server/Import/Importer.cs:197-234 | The drop-source listings, concatenated, minus ignored paths, are counted as files and videos, with exactly one hash job per video in order; other folders contribute nothing. |
| Scanning.DropFoldersHashesListed | Shoko.Server/Import/Importer.cs:197-234 | A path listed in a drop source that no ignored path matches is counted up to case, and hashed when it is a video outside a recycle bin. |
| Scanning.IndexPlaces | Shoko.Server/Import/Importer.cs:239-261 | Only places without a full path are removed. The known set is exactly the full paths of the snapshot's places. |
| Scanning.IndexStep | Shoko.Server/Import/Importer.cs:241-258 | One step of the indexing loop: a place with a full path, or one whose record removal fails, changes nothing; otherwise exactly that place goes. |
| Scanning.IndexPlacesForgetsPathless | Shoko.Server/Import/Importer.cs:239-261 | With distinct place ids, every snapshot place without a full path whose file record exists is removed. |
| Scanning.Unknown | Shoko.Server/Import/Importer.cs:284-290 | Exactly the listed paths that are neither in a recycle bin nor known, in listing order and with their multiplicity. |
| Scanning.NewFiles | Shoko.Server/Import/Importer.cs:236-311 | Every listed path that is neither recycled nor known is counted and hashed when a video. No known path is ever hashed. |
| Scanning.NewFilesHashesUnknown | Shoko.Server/Import/Importer.cs:285-307 | A listed video that is neither known nor recycled is hashed. |
| Scanning.RemoveFirst | Shoko.Server/Import/Importer.cs:325 | Removes one occurrence of the path when there is one, and otherwise changes nothing. |
| Scanning.RemoveKnown | Shoko.Server/Import/Importer.cs:321-326 | Each place path that was listed removes one occurrence; the result is a sub-multiset of the listing. |
| Scanning.ImportFolderNewFiles | Shoko.Server/Import/Importer.cs:313-344 | The remaining list is the folder's listing minus one occurrence per place path of that folder, as multisets. It is counted as files and videos, with exactly one hash job per video in order. |
| Scanning.ImportFolderHashesUnplaced | Shoko.Server/Import/Importer.cs:313-344 | A listed video outside a recycle bin that no place of the folder points at is hashed. |
| Scanning.UnplacedKept | Shoko.Server/Import/Importer.cs:321-326 | A listed path that no place of the folder points at loses no occurrence. |
| Reconcile.ByFolder | Shoko.Server/Import/Importer.cs:667-670 | Exactly the places of known folders, each with its multiplicity, and the places of one folder form one contiguous block. |
| Reconcile.GroupsMultiset | Shoko.Server/Import/Importer.cs:667-670 | Grouping by distinct folder keys keeps exactly the places of those folders, each as often as it occurs. |
| Reconcile.GroupsContiguous | Shoko.Server/Import/Importer.cs:667-670 | Grouping by distinct folder keys puts the places of each folder in one contiguous block. |
| Reconcile.Sweep | Shoko.Server/Import/Importer.cs:676-684 | Each unresolved place of the queue is removed against the store the earlier removals left. Resolved places are kept. |
| Reconcile.RemoveMissing | Shoko.Server/Import/Importer.cs:666-685 | The first pass removes only unresolved places of online folders, and never adds a record. |
| Reconcile.RemoveMissingExactly | Shoko.Server/Import/Importer.cs:671-684 | With unique ids, the first pass removes exactly the unresolved places of online folders and keeps every other place. |
| Reconcile.DeleteEmpty | Shoko.Server/Import/Importer.cs:687-689 | Exactly the file records the emptiness test selects are deleted. |
| Reconcile.Least | Shoko.Server/Import/Importer.cs:701-703 | The first record of the sorted group is a member of the group and no other member sorts strictly before it. |
| Reconcile.HashKeys | Shoko.Server/Import/Importer.cs:692-695 | Every non-blank hash of the snapshot, once; nothing else. |
| Reconcile.RePointAll | Shoko.Server/Import/Importer.cs:705-712 | Re-pointing losers one after the other equals re-pointing every place of any loser to the survivor at once. |
| Reconcile.MergeGroups | Shoko.Server/Import/Importer.cs:699-714 | No place is dropped, only file ids change, and the removal list is exactly the losers of the groups. |
| Reconcile.MergeDuplicates | Shoko.Server/Import/Importer.cs:691-716 | Places are re-pointed and every loser is deleted; nothing else is deleted. |
| Reconcile.MergeKeepsOnePerHash | Shoko.Server/Import/Importer.cs:691-716 | After the merge, no two records of the snapshot share a non-blank hash. |
| Reconcile.MergeGroupsRedirects | Shoko.Server/Import/Importer.cs:699-714 | With unique file ids, every place goes where the reference redirect says (the survivor of its file's hash), whatever the group order. |
| Reconcile.MergeRePointsLosers | Shoko.Server/Import/Importer.cs:705-716 | With unique file ids, every place of a losing record ends up on the survivor of its hash, and no place is left on a deleted loser. |
| Reconcile.DistinctByPath | Shoko.Server/Import/Importer.cs:739 | Each full path once, carried by the first place that has it, in order. |
| Reconcile.CleanRecord | Shoko.Server/Import/Importer.cs:719-750 | Blank-path places go and the first place per full path is kept. A record left with no place is deleted, with one MyList deletion by MyList id. A record with one usable place keeps it. |
| Reconcile.CleanRecords | Shoko.Server/Import/Importer.cs:719-751 | The last pass over the snapshot never adds a record or place. Every job is a MyList deletion by the MyList id of a snapshot record. |
| Reconcile.CleanRecordsJobs | Shoko.Server/Import/Importer.cs:743-750 | With unique file ids, exactly one MyList deletion is queued per snapshot record that had no usable place, in snapshot order. |
| Reconcile.CleanRecordsPlaces | Shoko.Server/Import/Importer.cs:721-742 | With unique file ids, each snapshot record keeps exactly its first place per full path. |
| Reconcile.RemoveRecordsWithoutPhysicalFiles | Shoko.Server/Import/Importer.cs:660-751 | No empty record survives and no two survivors share a non-blank hash. No surviving place is unresolved in an online folder, and each survivor is an original place, possibly re-pointed to another file. Every job is a MyList deletion. |
| Reconcile.SweptPlacesResolved | Shoko.Server/Import/Importer.cs:671-751 | A place that survives the first pass, is re-pointed by the merge and kept by the later passes is resolved, and is an original place with possibly another file. |
| Reconcile.RemoveRecordsJobs | Shoko.Server/Import/Importer.cs:660-751 | The jobs are the first pass's removals followed by the MyList deletions of the last pass over the snapshot taken after the first pass. |
| FolderDeletion.DeletePlaceRecord | Shoko.Server/Import/Importer.cs:823-833 | The place goes. When it was its file's last place, the file goes too and one MyList deletion is queued; otherwise no file changes and nothing is queued. |
| FolderDeletion.DeletePlaces | Shoko.Server/Import/Importer.cs:811-834 | Exactly the visited places go; files only disappear, and every job is a MyList deletion. |
| FolderDeletion.DeletePlacesOrphans | Shoko.Server/Import/Importer.cs:811-834 | The loop deletes exactly the files all of whose places it visits, and queues a MyList deletion for each of them and for nothing else. |
| FolderDeletion.DeleteImportFolder | Shoko.Server/Import/Importer.cs:800-862 | An unknown id returns "Could not find Import Folder ID: " and the id, changing nothing. Otherwise it returns "". The folder, its places and the duplicate entries naming it on either side are gone. |
| FolderDeletion.DeleteImportFolderRemovesOrphans | Shoko.Server/Import/Importer.cs:811-841 | With unique ids, exactly the folder's places go, and exactly the files that had places there and nowhere else. Each such file gets a MyList deletion and nothing else is queued. |
| FolderDeletion.DeleteFolders | Shoko.Server/Import/Importer.cs:788-793 | The first failing folder deletion stops the loop and its message is returned; success deletes every listed folder. |
| FolderDeletion.DeleteCloudAccount | Shoko.Server/Import/Importer.cs:783-798 | An unknown account is reported with its id. A failed folder deletion is returned and the account kept; after all folders go, the account goes. |
| FolderDeletion.DeleteFoldersSucceeds | Shoko.Server/Import/Importer.cs:788-793 | With unique folder ids the loop never fails and deletes exactly the listed folders. |
| FolderDeletion.DeleteCloudAccountComplete | Shoko.Server/Import/Importer.cs:783-797 | With unique folder ids, deleting a known account succeeds, removes the account, and leaves none of its folders. |
| Images.CountPresent | Shoko.Server/Import/Importer.cs:366-382 | Each owner's count grows by the number of its images present on disk. |
| Images.QueueMissing | Shoko.Server/Import/Importer.cs:384-402 | Only images with a path that is missing on disk are queued, each from the list. |
| Images.CappedDownloads | Shoko.Server/Import/Importer.cs:363-402 | Nothing when the pass's `Auto…` setting is off. Otherwise every job is a download of the given kind for a listed image that is missing on disk. |
| Images.QueueMissingTakesFirst | Shoko.Server/Import/Importer.cs:384-402 | For every owner, the loop queues exactly the first max(0, amount - count) of its missing images, in list order. |
| Images.CappedPassBound | Shoko.Server/Import/Importer.cs:366-402 | An owner gets min(missing, max(0, amount - present)) downloads, so present plus queued never exceeds the amount unless present already did. |
| Images.CappedDownloadsPerOwner | Shoko.Server/Import/Importer.cs:363-402 | With the setting on, one download per image let through, in order, and each series gets at most its room under the amount. |
| Schedule.Due | Shoko.Server/Import/Importer.cs:1020-1037 | A check runs exactly when forced, or when its frequency is not `Never` and there is no record or the record is at least the frequency's hours old. |
| Schedule.Check | Shoko.Server/Import/Importer.cs:1020-1037 | The shared gate: one job or none, and the job exactly when the check is due. |
| Schedule.CheckStaysDue | Shoko.Server/Import/Importer.cs:1029-1036 | A check that queued its job still queues it at any later time. |
| Schedule.DueLater | Shoko.Server/Import/Importer.cs:1029-1036 | A check that is due stays due as time passes. |
| Schedule.CheckForCalendarUpdate | Shoko.Server/Import/Importer.cs:1018-1040 | Either no job or one calendar job carrying the force flag, and the job is there exactly when the check is due. An unforced check with frequency `Never` queues nothing. |
| Schedule.CheckForAnimeUpdate | Shoko.Server/Import/Importer.cs:1069-1088 | Either no job or one anime-updates job, queued exactly when the check is due. |
| Schedule.CheckForMyListStatsUpdate | Shoko.Server/Import/Importer.cs:1090-1110 | Either no job or one MyList-stats job, queued exactly when the check is due. |
| Schedule.CheckForMyListSyncUpdate | Shoko.Server/Import/Importer.cs:1112-1133 | Either no job or one MyList-sync job, queued exactly when the check is due. |
| Schedule.CheckForTraktSyncUpdate | Shoko.Server/Import/Importer.cs:1135-1159 | Nothing unless Trakt is enabled; one sync job when due and an auth token is set, nothing without a token. |
| Schedule.CheckForTraktAllSeriesUpdate | Shoko.Server/Import/Importer.cs:1161-1181 | Either no job or one update-all job, queued exactly when Trakt is enabled and the check is due. |
| Schedule.Stamp | Shoko.Server/Import/Importer.cs:985-1002 | A record younger than the frequency stops an unforced check and is kept. Otherwise the record is set to now and the check goes on; no other record changes. |
| Schedule.StampThrottlesRepeat | Shoko.Server/Import/Importer.cs:985-1002 | Once a stamping check has run, an unforced repeat within the frequency does not run again. |
| Schedule.StampAgreesWithDue | Shoko.Server/Import/Importer.cs:985-1002 | Outside the unforced `Never` case, the stamp lets a check go on exactly when the check is due. |
| Schedule.TvDBThrottlesRepeat | Shoko.Server/Import/Importer.cs:972-1016 | Once a due TvDB check has run, an unforced repeat within the frequency queues nothing and keeps the schedule. |
| Schedule.CheckForTvDBUpdates | Shoko.Server/Import/Importer.cs:972-1016 | When not due, nothing is queued and the schedule is kept. When due, the schedule is stamped with now; offline TvDB gives no job, online gives one forced series update per returned id, in order. |
| Schedule.AddNew | Shoko.Server/Import/Importer.cs:896-900 | Keeps the existing ids as a prefix, adds each new id once, and the result holds exactly the ids of either list. |
| Schedule.UpdateAniDBFileData | Shoko.Server/Import/Importer.cs:887-932 | Returns the number of selected files. Unless only counting, it queues one file-info request per selected file, none when counting. |
| Schedule.UpdateRequestsEachOnce | Shoko.Server/Import/Importer.cs:887-932 | No file is requested twice, and a file is requested exactly when a selected query returned it. |
| Schedule.CheckForAniDBFileUpdate | Shoko.Server/Import/Importer.cs:1220-1257 | When not due, nothing is queued and the schedule is kept. When due, the schedule is stamped; one file-info request per file with unknown resolution or missing chapters comes first, then one process job per hashed file without an episode, in order. |
| Schedule.AniDBFileThrottlesRepeat | Shoko.Server/Import/Importer.cs:1220-1257 | Once a due file check has run, an unforced repeat within the frequency queues nothing and keeps the schedule. |
| Schedule.FilesToUpdate | Shoko.Server/Import/Importer.cs:892-908 | No id twice; an id is selected exactly when a selected query returned it. |
| Schedule.FileJobsFromQueries | Shoko.Server/Import/Importer.cs:892-908 | The periodic re-query asks only for files with unknown resolution or missing chapters. |
| Renamers.RemoveFilename | Shoko.Server/Renamer/RenameFileHelper.cs:112-124 | The result is a prefix of the destination. It is unchanged when there is no separator or the separator is last. A change strips exactly a separator plus the file's own name. |
| Renamers.RemoveFilenameOfCombine | Shoko.Server/Renamer/RenameFileHelper.cs:112-124 | A directory combined with the file's own name gives the directory back. |
| Renamers.Absorb | Shoko.Server/Renamer/RenameFileHelper.cs:140-154 | Keys stay unique and existing entries are a prefix. The keys are the old ones plus the offered ones. Each new entry is the first offer of its key. |
| Renamers.FindRenamers | Shoko.Server/Renamer/RenameFileHelper.cs:126-156 | Registers every non-null key of every discovered type. Existing registrations are kept in place and keys stay unique. |
| Renamers.FirstRegistrationWins | Shoko.Server/Renamer/RenameFileHelper.cs:145-153 | A newly registered key carries the first type and attribute that offered it. |
| Renamers.EnabledRenamers | Shoko.Server/Renamer/RenameFileHelper.cs:164-173 | Exactly the registrations that match the name (when one is given) and are not disabled in settings; an unlisted renamer counts as enabled. |
| Renamers.EnabledNamedOnly | Shoko.Server/Renamer/RenameFileHelper.cs:168 | With a non-empty name, at most the renamer of that key is yielded. |
| Renamers.Insert | Shoko.Server/Renamer/RenameFileHelper.cs:159-161 | Inserting into an ordered list keeps it ordered and adds exactly the one renamer. |
| Renamers.SortRenamers | Shoko.Server/Renamer/RenameFileHelper.cs:159-161 | The result is a permutation of the input, ordered by rank, then priority, then key. |
| Renamers.GetPluginRenamersSorted | Shoko.Server/Renamer/RenameFileHelper.cs:158-162 | Exactly the enabled renamers, each once, in rank-priority-key order. |
| Renamers.NamedRenamerFirst | Shoko.Server/Renamer/RenameFileHelper.cs:159 | The named renamer, when registered and enabled, is asked first. |
| Renamers.PriorityOrder | Shoko.Server/Renamer/RenameFileHelper.cs:160 | Without a name, a renamer with a lower configured priority is asked before one with a higher. |
| Renamers.GetRenameScript | Shoko.Server/Renamer/RenameFileHelper.cs:26-37 | The script by name when there is one, else the default script; none only when neither exists. |
| Renamers.GetRenameScriptWithFallback | Shoko.Server/Renamer/RenameFileHelper.cs:39-50 | The script by name, else the default, else the first; none exactly when there are no scripts. |
| Renamers.FirstName | Shoko.Server/Renamer/RenameFileHelper.cs:60-76 | Null exactly when some renamer cancels before any answers. The first renamer that answers without cancelling, after only silent ones, gives the result. The current name is kept when all stay silent. |
| Renamers.GetFilename | Shoko.Server/Renamer/RenameFileHelper.cs:52-77 | With the script's renamers in sorted order: null exactly on a cancel before any answer, the first answer after silent renamers otherwise, and the file's current name when all stay silent. |
| Renamers.FirstNameAt | Shoko.Server/Renamer/RenameFileHelper.cs:60-76 | The first renamer that cancels or answers decides: a cancel gives null, an answer gives its name. |
| Renamers.GetFilenameFirstAnswer | Shoko.Server/Renamer/RenameFileHelper.cs:52-77 | In the script's sorted order, the first renamer that cancels or answers decides the file name. |
| Renamers.FirstDestination | Shoko.Server/Renamer/RenameFileHelper.cs:86-109 | A destination found lies in a known import folder, with a path derived from a non-empty renamer answer. |
| Renamers.FirstDestinationDecides | Shoko.Server/Renamer/RenameFileHelper.cs:86-109 | The loop decides at the first renamer not passed over. A cancel there gives none; a usable answer gives its folder and its path minus the file name; all passed over gives none. |
| Renamers.GetDestination | Shoko.Server/Renamer/RenameFileHelper.cs:79-110 | A destination lies in a known folder, and its path is a prefix of a non-empty renamer answer with the file name stripped. |
| Renamers.GetDestinationFirstAnswer | Shoko.Server/Renamer/RenameFileHelper.cs:79-110 | Over the script's sorted renamers, the first renamer not passed over decides: no destination on a cancel, its folder and stripped path on a usable answer, and none when every renamer is passed over. |
| Tags.Replace | Shoko.Server/RepositoriesV2/Repos/AniDB_TagRepository.cs:40-41 | Same length; every occurrence of the character is replaced and no other character changes, so the old character no longer occurs. |
| Tags.Fix | Shoko.Server/RepositoriesV2/Repos/AniDB_TagRepository.cs:40-41 | A repaired tag has no backtick, keeps its id and the presence of its description, and a tag without backticks is unchanged. |
| Tags.Init | Shoko.Server/RepositoriesV2/Repos/AniDB_TagRepository.cs:28-47 | No tag keeps a backtick. Tags without one are untouched, and a tag that needed fixing becomes `Fix` of it. Nothing is reported exactly when no tag needed fixing; otherwise one report per fixed tag, then a final report with Step equal to Total. |
| Tags.FixChangesOnlyBackticks | Shoko.Server/RepositoriesV2/Repos/AniDB_TagRepository.cs:40-41 | The repair only turns backticks into apostrophes; every other character stays in place. |
| Tags.InitIdempotent | Shoko.Server/RepositoriesV2/Repos/AniDB_TagRepository.cs:30-31 | A second `Init` changes nothing and reports nothing. |
| Tags.GetByTagID | Shoko.Server/RepositoriesV2/Repos/AniDB_TagRepository.cs:76-82 | A tag with that id from the table, or null exactly when the table has none. |
| Tags.GetByAnimeID | Shoko.Server/RepositoriesV2/Repos/AniDB_TagRepository.cs:52-58 | Exactly the resolvable tags linked to the anime; unresolved links are omitted. |
| Tags.GetByAnimeIDs | Shoko.Server/RepositoriesV2/Repos/AniDB_TagRepository.cs:61-73 | A null array is an error and an empty one the empty lookup. Otherwise the groups are exactly the requested anime that have links. |
| Tags.EmptyLookupAgrees | Shoko.Server/RepositoriesV2/Repos/AniDB_TagRepository.cs:66-69 | The empty-array shortcut gives what the general lookup gives for no ids. |
| Tags.LookupMatchesGetByAnimeID | Shoko.Server/RepositoriesV2/Repos/AniDB_TagRepository.cs:71-72 | Each anime's group holds exactly the tags `GetByAnimeID` returns for it, plus nulls for unresolved links. |
| Tags.GetAllForLocalSeriesAsWritten | Shoko.Server/RepositoriesV2/Repos/AniDB_TagRepository.cs:89-97 | No duplicates; exactly the lookup results, null included, of the links of local series. |
| Tags.AsWrittenYieldsNull | Shoko.Server/RepositoriesV2/Repos/AniDB_TagRepository.cs:93-94 | A local series linked to a tag missing from the table puts a null in the result. |
| Tags.GetAllForLocalSeries | Shoko.Server/RepositoriesV2/Repos/AniDB_TagRepository.cs:89-97 | No duplicates and no null; exactly the resolvable tags linked to some local series. |
| Tags.LocalSeriesTagsAgree | Shoko.Server/RepositoriesV2/Repos/AniDB_TagRepository.cs:89-97 | The corrected result is the as-written one with the null removed. |
| Udp.GetResponse | Shoko.Server/Providers/AniDB/UDP/Commands/AniDBUDP_BaseCommand.cs:24-28 | Reading fails with `CommandNotExecuted` exactly when the command has not been executed. |
| Udp.SetResponse | Shoko.Server/Providers/AniDB/UDP/Commands/AniDBUDP_BaseCommand.cs:30 | Storing never changes the flag. After `Execute`, a read returns the stored value; before it, a read still fails. |
| Udp.Execute | Shoko.Server/Providers/AniDB/UDP/Commands/AniDBUDP_BaseCommand.cs:35-41 | Sets the flag, keeps the stored response, and a read then succeeds. |
| Udp.ExecuteIdempotent | Shoko.Server/Providers/AniDB/UDP/Commands/AniDBUDP_BaseCommand.cs:40 | A second `Execute` changes nothing. |
| Udp.RunHistory | Shoko.Server/Providers/AniDB/UDP/Commands/AniDBUDP_BaseCommand.cs:24-40 | After any history of uses, the flag is set exactly when it was already set or the history executes, and the stored response is the last one stored. |
| Udp.ReadAfterHistory | Shoko.Server/Providers/AniDB/UDP/Commands/AniDBUDP_BaseCommand.cs:24-40 | On a new command, a read fails until the first `Execute`. After it, a read returns the last response stored (null if none), stored before or after executing. |

## Left out

- Persistence (NHibernate sessions, repositories, caches, batching) is replaced by the store value. `BatchAction`'s batch size only groups commits, so it is not modelled.
- `Thread.Sleep` is recorded as a list of waits, not performed.
- Linux permissions (`SetLinuxPermissions`) are modelled only as whether the step runs.
- The command queue's own de-duplication and persistence are left out; enqueueing appends.
- `VideoLocal.IsEmpty`, `VideoLocalComparer`, `Utils.IsVideo`, `Utils.GetScheduledHours`, `Utils.RemoveInvalidFolderNameCharacters` and `Utils.GetPossibleSubtitleFiles` are parameters. They are not part of this model.
- MediaInfo (`RefreshMediaInfo`, `FillVideoInfoFromMedia`), Plex contracts, episode and series refreshes and `QueueUpdateStats`, analytics and logging are left out. None of them changes the records modelled here.
- Network helpers (`TvDBApiHelper.IncrementalTvDBUpdate` and `ScanForMatches`, Trakt token refresh, `SendUserInfoUpdate`, `UpdateAniDBTitles`, the AniDB posters check) are left out or reduced to their inputs: the TvDB ids and the online flag are parameters.
- `DateTime.Now` is a tick parameter. `TotalHours` is compared on exact ticks, so floating-point rounding of the hour count is ignored.
- Reflection in `FindRenamers` (assembly scanning, `GetTypes` failures) and `ActivatorUtilities.CreateInstance` are left out. Discovered types are given as a sequence of implementations with their attributes.
- `InvariantCulture` string ordering in `GetPluginRenamersSorted` is replaced by ordinal order. `InvariantCultureIgnoreCase` comparisons fold ASCII letters only.
- The renamer plugins' own logic is an oracle from registration to answer. `GetNewFileName`, the renamer `RenameFile` calls, is an input.
- `VideoLocal_PlaceRepository.GetFromFullPath`, `ImportFolder.GetByImportLocation`, `AniDB_Anime_Tag.GetByAnimeID(s)` and `AnimeSeries.GetAll` are not part of this model. They are modelled as the first matching record, a filter by anime id and a given sequence of anime ids.
- Exception paths that only log (the catch blocks of the scans) are left out. Where a catch changes the result it is modelled: `RenameFile`'s and `MoveFileIfRequired`'s catches answer done (the `Threw` outcomes of the rename, delete and move calls, and the sibling search's null folder dereference, `Moving.SearchThrows`; other throwing steps are not inputs), `RemoveAndDeleteFile`'s answers false, and `RenameIfRequired`'s answers true (the `renameThrows` input of each ladder try).
- FolderDeletion.DeleteImportFolder: the catch at Shoko.Server/Import/Importer.cs:864-868 returns the exception's message, which makes `DeleteFolders` and `DeleteCloudAccount` stop. The model has no exception input for the deletion, so it never takes that path and the callers always go on.
- Paths.Combine: models `Path.Combine` for a relative second argument only. A rooted second argument, which `Path.Combine` returns unchanged, is not modelled.
- Paths.GetDirectoryName: a path without a separator gives "" here, where `Path.GetDirectoryName` can return null and `RenameFile` then builds a null target (Shoko.Server/Models/SVR_VideoLocal_Place.cs:75-76). That null branch is not modelled.
- Moving.SiblingDirectory: the episodes are given in the order the search visits them. The source sorts them by descending air date first (Shoko.Server/Models/SVR_VideoLocal_Place.cs:592-594); the model assumes the caller passes them so sorted.
- Places.RenameRoundTrip: proved only when the import folder `GetFromFullPath` finds for the target is the place's own folder. The source keeps `ImportFolderID` and stores the relative path from the folder found (Shoko.Server/Models/SVR_VideoLocal_Place.cs:104-110). With nested import folders these can differ, and the place's full path is then not the target. `GetFromFullPath` is not part of this model, so this is not claimed as a defect.
- `DeleteImportFolder`'s collection of affected series and the GUI refresh hack are left out; they only trigger statistics updates.
- The uncapped image loops of `RunImport_GetImages` are left out: AniDB anime posters, TvDB episode thumbnails, characters and creators. They queue a download for every missing image and need no cap model.
- The cross-reference cleanup at the end of `RemoveRecordsWithoutPhysicalFiles` is left out; it touches no record modelled here.
- `DirTree.Prune`: `Populate` is read once per directory, through the `readable` flag. The second `Populate` of the source is assumed to answer as the first.
- `Moving.MoveFileIfRequired`: directory creation is assumed to succeed; a failed `CreateDirectoryAsync` is not modelled.
- `Reconcile.RemoveMissingExactly`: proved assuming record ids are unique, as the database keys guarantee. So are `Reconcile.MergeGroupsRedirects`, `Reconcile.CleanRecordsJobs`, `Reconcile.CleanRecordsPlaces`, `Places.RemoveRecordCascade`, `FolderDeletion.DeleteImportFolderRemovesOrphans` and `FolderDeletion.DeleteCloudAccountComplete`.
- `Reconcile.Least`: `List.Sort` is not stable, so the survivor is one least record under the comparer, not a fixed one.
- `Udp.Execute`: the command is never sent over the network; `ParseResponse` and the abstract command strings are left out.

## Findings

| source | as written | input that shows it | evidently intended | confidence | as-written member | corrected member |
|---|---|---|---|---|---|---|
| Shoko.Server/Models/SVR_VideoLocal_Place.cs:478-479 | The fourth `MoveFileIfRequired()` result is discarded, so `succeeded` is still false and the method returns before setting permissions. | Rename succeeds; move fails three times and succeeds on the fourth try. | The fourth result is stored in `succeeded`, as for the first three tries, and a successful move goes on to the permissions step. | medium, not executed | Retry.RenameAndMoveAsWritten, Moving.RenameAndMoveAsRequired, Retry.FourthMoveIgnored | Retry.RenameAndMove, Moving.RenameAndMoveCorrected |
| Shoko.Server/RepositoriesV2/Repos/AniDB_TagRepository.cs:93-94 | The null filter runs on the anime-tag links before `GetByTagID`, so a link to a tag missing from the table yields a null in the list. | One local series (anime 1) linked to tag 7, with no tag 7 in the table: the result is `[null]`. | Filter after resolving, as `GetByAnimeID` does, so the list holds only tags. | medium, not executed | Tags.GetAllForLocalSeriesAsWritten | Tags.GetAllForLocalSeries |
