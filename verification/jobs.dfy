/**
 * The command-queue jobs the core enqueues. Enqueueing is modelled as
 * appending to an output sequence: the queue's own de-duplication and
 * persistence are outside the model.
 */
module Jobs {

  /** The image kinds of `ImageEntityType` that the capped download loops use. */
  datatype ImageKind = TvDBCover | TvDBFanArt | TvDBBanner | MovieDBPoster | MovieDBFanArt

  datatype Command =
    | HashFile(path: string)
      /** `CommandRequest_DeleteFileFromMyList(hash, size)`, queued by `RemoveRecord`. */
    | DeleteFileFromMyListByHash(hash: string, fileSize: int)
      /** `CmdAniDBDeleteFileFromMyList(myListId)`, queued by the importer. */
    | DeleteFileFromMyList(myListId: int)
    | ImageDownload(imageId: int, kind: ImageKind)
    | AniDBGetFile(videoLocalId: int)
    | ServerProcessFile(videoLocalId: int)
    | TvDBUpdateSeries(tvdbId: int, force: bool)
    | AniDBGetCalendar(force: bool)
    | AniDBGetUpdated
    | AniDBUpdateMyListStats(force: bool)
    | AniDBSyncMyList(force: bool)
    | TraktSyncCollection
    | TraktUpdateAllSeries
}
