/**
 * The throttled periodic checks of the importer (`CheckFor*`) and the file
 * re-query they can trigger (`UpdateAniDBFileData`). A check runs when its
 * frequency is not `Never` (or it is forced) and its `ScheduledUpdate`
 * record is absent, old enough, or overridden by the force flag. Times are
 * ticks; the current time is a parameter.
 */
module Schedule {
  import opened Wrappers
  import opened Seqs
  import opened Jobs

  /** `ScheduledUpdateFrequency`: only `Never` is told apart; any other setting maps to hours through `HoursOf`. */
  datatype Frequency = Never | Every(setting: int)

  /** `Utils.GetScheduledHours`, which is not part of this model. */
  type HoursOf = Frequency -> int

  /** `TimeSpan.TicksPerHour`. */
  const TicksPerHour: int := 36_000_000_000

  /** The `ScheduledUpdateType`s the checks read or stamp. */
  datatype UpdateType = AniDBCalendar | AniDBUpdates | AniDBMylistStats | AniDBMyListSync | TraktSync | TraktUpdate | TvDBInfo | AniDBFileUpdates

  /** The `ScheduledUpdate` records: last update time per type. */
  type Schedules = map<UpdateType, int>

  /** The settings the checks consult. */
  datatype Settings = Settings(
    calendar: Frequency,
    anime: Frequency,
    myListStats: Frequency,
    myList: Frequency,
    traktSync: Frequency,
    traktUpdate: Frequency,
    tvdb: Frequency,
    file: Frequency,
    traktEnabled: bool,
    traktAuthToken: string)

  function LastRun(sched: Schedules, t: UpdateType): (r: Option<int>)
    ensures r.Some? <==> t in sched
  {
    if t in sched then Some(sched[t]) else None
  }

  /** `tsLastRun.TotalHours < freqHours`, on exact ticks. */
  predicate RanRecently(last: int, now: int, hours: int) {
    now - last < hours * TicksPerHour
  }

  /**
   * The throttle rule: a `Never` frequency stops an unforced check; a
   * record younger than the frequency stops it unless forced; otherwise it
   * runs.
   */
  function Due(freq: Frequency, hoursOf: HoursOf, last: Option<int>, now: int, force: bool): (r: bool)
    ensures r <==> force || (freq != Never && (last.None? || now - last.value >= hoursOf(freq) * TicksPerHour))
  {
    if freq == Never && !force then false
    else
      match last
      case None => true
      case Some(t) => if RanRecently(t, now, hoursOf(freq)) then force else true
  }

  /** A check that is due stays due as time passes. */
  lemma DueLater(freq: Frequency, hoursOf: HoursOf, last: Option<int>, now: int, later: int, force: bool)
    requires now <= later && Due(freq, hoursOf, last, now, force)
    ensures Due(freq, hoursOf, last, later, force)
  {
  }

  /** The read-only checks: one job when due, none otherwise. */
  function Check(freq: Frequency, hoursOf: HoursOf, sched: Schedules, t: UpdateType, now: int, force: bool, job: Command): (r: seq<Command>)
    ensures r == [job] || r == []
    ensures r == [job] <==> Due(freq, hoursOf, LastRun(sched, t), now, force)
  {
    if Due(freq, hoursOf, LastRun(sched, t), now, force) then [job] else []
  }

  /** A read-only check that queues its job still queues it later: it leaves no record behind. */
  lemma CheckStaysDue(freq: Frequency, hoursOf: HoursOf, sched: Schedules, t: UpdateType, now: int, later: int,
                      force: bool, job: Command)
    requires now <= later && Check(freq, hoursOf, sched, t, now, force, job) == [job]
    ensures Check(freq, hoursOf, sched, t, later, force, job) == [job]
  {
    DueLater(freq, hoursOf, LastRun(sched, t), now, later, force);
  }

  function CheckForCalendarUpdate(cfg: Settings, hoursOf: HoursOf, sched: Schedules, now: int, force: bool): (r: seq<Command>)
    ensures r == [] || r == [AniDBGetCalendar(force)]
    ensures r != [] <==> Due(cfg.calendar, hoursOf, LastRun(sched, AniDBCalendar), now, force)
    ensures cfg.calendar == Never && !force ==> r == []
  {
    Check(cfg.calendar, hoursOf, sched, AniDBCalendar, now, force, AniDBGetCalendar(force))
  }

  function CheckForAnimeUpdate(cfg: Settings, hoursOf: HoursOf, sched: Schedules, now: int, force: bool): (r: seq<Command>)
    ensures r == [] || r == [AniDBGetUpdated]
    ensures r != [] <==> Due(cfg.anime, hoursOf, LastRun(sched, AniDBUpdates), now, force)
    ensures cfg.anime == Never && !force ==> r == []
  {
    Check(cfg.anime, hoursOf, sched, AniDBUpdates, now, force, AniDBGetUpdated)
  }

  function CheckForMyListStatsUpdate(cfg: Settings, hoursOf: HoursOf, sched: Schedules, now: int, force: bool): (r: seq<Command>)
    ensures r == [] || r == [AniDBUpdateMyListStats(force)]
    ensures r != [] <==> Due(cfg.myListStats, hoursOf, LastRun(sched, AniDBMylistStats), now, force)
    ensures cfg.myListStats == Never && !force ==> r == []
  {
    Check(cfg.myListStats, hoursOf, sched, AniDBMylistStats, now, force, AniDBUpdateMyListStats(force))
  }

  function CheckForMyListSyncUpdate(cfg: Settings, hoursOf: HoursOf, sched: Schedules, now: int, force: bool): (r: seq<Command>)
    ensures r == [] || r == [AniDBSyncMyList(force)]
    ensures r != [] <==> Due(cfg.myList, hoursOf, LastRun(sched, AniDBMyListSync), now, force)
    ensures cfg.myList == Never && !force ==> r == []
  {
    Check(cfg.myList, hoursOf, sched, AniDBMyListSync, now, force, AniDBSyncMyList(force))
  }

  /** Trakt sync: only when Trakt is enabled, and it queues nothing without an auth token even when due. */
  function CheckForTraktSyncUpdate(cfg: Settings, hoursOf: HoursOf, sched: Schedules, now: int, force: bool): (r: seq<Command>)
    ensures r == [TraktSyncCollection] || r == []
    ensures r != [] <==>
      cfg.traktEnabled && cfg.traktAuthToken != "" && Due(cfg.traktSync, hoursOf, LastRun(sched, TraktSync), now, force)
  {
    if !cfg.traktEnabled then []
    else if !Due(cfg.traktSync, hoursOf, LastRun(sched, TraktSync), now, force) then []
    else if cfg.traktEnabled && cfg.traktAuthToken != "" then [TraktSyncCollection]
    else []
  }

  function CheckForTraktAllSeriesUpdate(cfg: Settings, hoursOf: HoursOf, sched: Schedules, now: int, force: bool): (r: seq<Command>)
    ensures r == [] || r == [TraktUpdateAllSeries]
    ensures r != [] <==> cfg.traktEnabled && Due(cfg.traktUpdate, hoursOf, LastRun(sched, TraktUpdate), now, force)
    ensures !cfg.traktEnabled ==> r == []
  {
    if !cfg.traktEnabled then []
    else Check(cfg.traktUpdate, hoursOf, sched, TraktUpdate, now, force, TraktUpdateAllSeries)
  }

  /* ---------------------------------------------------------------------- */
  /* Checks that stamp their own record (`BeginAddOrUpdate`)                */
  /* ---------------------------------------------------------------------- */

  /**
   * The stamping gate: an existing record younger than the frequency stops
   * an unforced check and is left alone; otherwise the record is created or
   * updated to `now` and the check goes on.
   */
  function Stamp(hours: int, sched: Schedules, t: UpdateType, now: int, force: bool): (r: (bool, Schedules))
    ensures r.0 ==> r.1 == sched[t := now]
    ensures !r.0 ==> r.1 == sched
    ensures r.0 <==> force || t !in sched || !RanRecently(sched[t], now, hours)
  {
    if t in sched && RanRecently(sched[t], now, hours) && !force then (false, sched)
    else (true, sched[t := now])
  }

  /** Once a stamping check has run, an unforced repeat within the frequency does not run again. */
  lemma StampThrottlesRepeat(hours: int, sched: Schedules, t: UpdateType, now: int, later: int, force: bool)
    requires Stamp(hours, sched, t, now, force).0
    requires now <= later < now + hours * TicksPerHour
    ensures !Stamp(hours, Stamp(hours, sched, t, now, force).1, t, later, false).0
    ensures Stamp(hours, Stamp(hours, sched, t, now, force).1, t, later, false).1 == Stamp(hours, sched, t, now, force).1
  {
  }

  /**
   * The stamping gate, preceded by the `Never` test, lets a check through
   * exactly when the read-only throttle rule would: both compare the age of
   * the record with the frequency, and a force flag overrides both.
   */
  lemma StampAgreesWithDue(freq: Frequency, hoursOf: HoursOf, sched: Schedules, t: UpdateType, now: int, force: bool)
    ensures (!(freq == Never && !force) && Stamp(hoursOf(freq), sched, t, now, force).0)
      <==> Due(freq, hoursOf, LastRun(sched, t), now, force)
  {
  }

  /**
   * `CheckForTvDBUpdates`: after the `Never` test and the stamping gate, one
   * series update per id the incremental TvDB query returned, when TvDB was
   * online; the record is stamped even when TvDB was not. The ids and the
   * online flag are inputs.
   */
  function CheckForTvDBUpdates(cfg: Settings, hoursOf: HoursOf, sched: Schedules, now: int, force: bool,
                               tvdbIds: seq<int>, online: bool): (r: (seq<Command>, Schedules))
    ensures !Due(cfg.tvdb, hoursOf, LastRun(sched, TvDBInfo), now, force) ==> r == ([], sched)
    ensures Due(cfg.tvdb, hoursOf, LastRun(sched, TvDBInfo), now, force) ==>
      && r.1 == sched[TvDBInfo := now]
      && (!online ==> r.0 == [])
      && (online ==> |r.0| == |tvdbIds| && forall i :: 0 <= i < |r.0| ==> r.0[i] == TvDBUpdateSeries(tvdbIds[i], true))
  {
    StampAgreesWithDue(cfg.tvdb, hoursOf, sched, TvDBInfo, now, force);
    if cfg.tvdb == Never && !force then ([], sched)
    else
      var gate := Stamp(hoursOf(cfg.tvdb), sched, TvDBInfo, now, force);
      if !gate.0 then ([], sched)
      else if online then (seq(|tvdbIds|, i requires 0 <= i < |tvdbIds| => TvDBUpdateSeries(tvdbIds[i], true)), gate.1)
      else ([], gate.1)
  }

  /** After a TvDB check has run, an unforced one within the frequency queues nothing and keeps the new stamp. */
  lemma TvDBThrottlesRepeat(cfg: Settings, hoursOf: HoursOf, sched: Schedules, now: int, later: int, force: bool,
                            ids: seq<int>, online: bool, ids2: seq<int>, online2: bool)
    requires Due(cfg.tvdb, hoursOf, LastRun(sched, TvDBInfo), now, force)
    requires now <= later < now + hoursOf(cfg.tvdb) * TicksPerHour
    ensures var first := CheckForTvDBUpdates(cfg, hoursOf, sched, now, force, ids, online);
      CheckForTvDBUpdates(cfg, hoursOf, first.1, later, false, ids2, online2) == ([], first.1)
  {
    var first := CheckForTvDBUpdates(cfg, hoursOf, sched, now, force, ids, online);
    assert LastRun(first.1, TvDBInfo) == Some(now);
  }

  /* ---------------------------------------------------------------------- */
  /* UpdateAniDBFileData                                                    */
  /* ---------------------------------------------------------------------- */

  /** The repository queries `UpdateAniDBFileData` unites, as the file ids they return. */
  datatype FileQueries = FileQueries(unknownResolution: seq<int>, missingChapters: seq<int>, oldVersion: seq<int>)

  /** Append each id not already present (`Any(a => a.VideoLocalID == vid.VideoLocalID)`), in order. */
  function AddNew(acc: seq<int>, ids: seq<int>): (r: seq<int>)
    requires Distinct(acc)
    decreases ids
    ensures Distinct(r)
    ensures |r| >= |acc| && r[..|acc|] == acc
    ensures forall x :: x in r <==> x in acc || x in ids
  {
    if ids == [] then acc
    else if ids[0] in acc then AddNew(acc, ids[1..])
    else
      var r := AddNew(acc + [ids[0]], ids[1..]);
      assert (acc + [ids[0]])[..|acc|] == acc;
      r
  }

  /** The files selected for a re-query, each once, in the order the queries return them. */
  function FilesToUpdate(missingInfo: bool, outOfDate: bool, q: FileQueries): (r: seq<int>)
    ensures Distinct(r)
    ensures forall x :: x in r <==>
      (missingInfo && (x in q.unknownResolution || x in q.missingChapters)) || (outOfDate && x in q.oldVersion)
  {
    var first := if missingInfo then AddNew(AddNew([], q.unknownResolution), q.missingChapters) else [];
    if outOfDate then AddNew(first, q.oldVersion) else first
  }

  /**
   * `UpdateAniDBFileData`: the number of selected files, and one file-info
   * request per selected file unless only counting.
   */
  function UpdateAniDBFileData(missingInfo: bool, outOfDate: bool, countOnly: bool, q: FileQueries): (r: (nat, seq<Command>))
    ensures var files := FilesToUpdate(missingInfo, outOfDate, q);
      && r.0 == |files|
      && (countOnly ==> r.1 == [])
      && (!countOnly ==> |r.1| == r.0 && forall i :: 0 <= i < |r.1| ==> r.1[i] == AniDBGetFile(files[i]))
  {
    var files := FilesToUpdate(missingInfo, outOfDate, q);
    (|files|, if countOnly then [] else seq(|files|, i requires 0 <= i < |files| => AniDBGetFile(files[i])))
  }

  /** No file is requested twice, and a file is requested exactly when a selected query returned it. */
  lemma UpdateRequestsEachOnce(missingInfo: bool, outOfDate: bool, q: FileQueries, id: int)
    ensures var jobs := UpdateAniDBFileData(missingInfo, outOfDate, false, q).1;
      && Distinct(jobs)
      && (AniDBGetFile(id) in jobs <==>
            (missingInfo && (id in q.unknownResolution || id in q.missingChapters)) || (outOfDate && id in q.oldVersion))
  {
    var files := FilesToUpdate(missingInfo, outOfDate, q);
    var jobs := UpdateAniDBFileData(missingInfo, outOfDate, false, q).1;
    if AniDBGetFile(id) in jobs {
      var i :| 0 <= i < |jobs| && jobs[i] == AniDBGetFile(id);
      assert files[i] == id;
    }
    if id in files {
      var i :| 0 <= i < |files| && files[i] == id;
      assert jobs[i] == AniDBGetFile(id);
    }
  }

  /**
   * `CheckForAniDBFileUpdate`: after the `Never` test and the stamping gate,
   * re-query the files with missing information and then process every
   * hashed file that has no episode (given as ids), in that order.
   */
  function CheckForAniDBFileUpdate(cfg: Settings, hoursOf: HoursOf, sched: Schedules, now: int, force: bool,
                                   q: FileQueries, withoutEpisode: seq<int>): (r: (seq<Command>, Schedules))
    ensures !Due(cfg.file, hoursOf, LastRun(sched, AniDBFileUpdates), now, force) ==> r == ([], sched)
    ensures Due(cfg.file, hoursOf, LastRun(sched, AniDBFileUpdates), now, force) ==>
      var files := FilesToUpdate(true, false, q);
      && r.1 == sched[AniDBFileUpdates := now]
      && |r.0| == |files| + |withoutEpisode|
      && (forall i :: 0 <= i < |files| ==> r.0[i] == AniDBGetFile(files[i]))
      && (forall i :: 0 <= i < |withoutEpisode| ==> r.0[|files| + i] == ServerProcessFile(withoutEpisode[i]))
    ensures forall c :: c in r.0 ==>
      (c.AniDBGetFile? && (c.videoLocalId in q.unknownResolution || c.videoLocalId in q.missingChapters))
      || (c.ServerProcessFile? && c.videoLocalId in withoutEpisode)
  {
    StampAgreesWithDue(cfg.file, hoursOf, sched, AniDBFileUpdates, now, force);
    if cfg.file == Never && !force then ([], sched)
    else
      var gate := Stamp(hoursOf(cfg.file), sched, AniDBFileUpdates, now, force);
      if !gate.0 then ([], sched)
      else
        var update := UpdateAniDBFileData(true, false, false, q).1;
        var process := seq(|withoutEpisode|, i requires 0 <= i < |withoutEpisode| => ServerProcessFile(withoutEpisode[i]));
        FileJobsFromQueries(q);
        (update + process, gate.1)
  }

  /** After a file check has run, an unforced one within the frequency queues nothing and keeps the new stamp. */
  lemma AniDBFileThrottlesRepeat(cfg: Settings, hoursOf: HoursOf, sched: Schedules, now: int, later: int, force: bool,
                                 q: FileQueries, ids: seq<int>, q2: FileQueries, ids2: seq<int>)
    requires Due(cfg.file, hoursOf, LastRun(sched, AniDBFileUpdates), now, force)
    requires now <= later < now + hoursOf(cfg.file) * TicksPerHour
    ensures var first := CheckForAniDBFileUpdate(cfg, hoursOf, sched, now, force, q, ids);
      CheckForAniDBFileUpdate(cfg, hoursOf, first.1, later, false, q2, ids2) == ([], first.1)
  {
    var first := CheckForAniDBFileUpdate(cfg, hoursOf, sched, now, force, q, ids);
    assert LastRun(first.1, AniDBFileUpdates) == Some(now);
  }

  lemma FileJobsFromQueries(q: FileQueries)
    ensures forall c :: c in UpdateAniDBFileData(true, false, false, q).1 ==>
      c.AniDBGetFile? && (c.videoLocalId in q.unknownResolution || c.videoLocalId in q.missingChapters)
  {
    var files := FilesToUpdate(true, false, q);
    var jobs := UpdateAniDBFileData(true, false, false, q).1;
    forall c | c in jobs
      ensures c.AniDBGetFile? && (c.videoLocalId in q.unknownResolution || c.videoLocalId in q.missingChapters)
    {
      var i :| 0 <= i < |jobs| && jobs[i] == c;
      assert files[i] in files;
    }
  }
}
