/**
 * The first generation of the tool, a top-level script: fetch the update
 * times of the given ids, compare them with a JSON cache of the times seen
 * last, rewrite the cache when something changed, and write the changed ids
 * to a state file. Files are values here: `None` is a missing file.
 */
module LegacyUpdateDb {
  import opened Wrappers
  import opened PyDict
  import opened WorkshopApi

  /** The item loop of the legacy `fetch_workshop_pages`: no per-item skip, id -> `time_updated`. */
  function LegacyCollect(itemIds: seq<ModId>, details: seq<ResponseItem>): (r: Result<Dict<ModId, int>, FetchError>)
    ensures r.Ok? ==> r.value.Valid()
    decreases |details|
  {
    if details == [] then Ok(Empty())
    else
      var item := details[|details| - 1];
      match LegacyCollect(itemIds, details[..|details| - 1])
      case Err(e) => Err(e)
      case Ok(times) =>
        if item.publishedFileId !in itemIds then Err(UnexpectedId(item.publishedFileId))
        else Ok(Put(times, item.publishedFileId, item.timeUpdated))
  }

  /** Every returned item, whatever its own result, names a requested id. */
  ghost predicate AllRequested(itemIds: seq<ModId>, details: seq<ResponseItem>) {
    forall i :: 0 <= i < |details| ==> details[i].publishedFileId in itemIds
  }

  /** `details[i]` is the last item for `id`: the one whose time the dict keeps. */
  ghost predicate LastItemFor(details: seq<ResponseItem>, id: ModId, i: int) {
    && 0 <= i < |details|
    && details[i].publishedFileId == id
    && forall j :: i < j < |details| ==> details[j].publishedFileId != id
  }

  /** `times` maps exactly the returned ids, each to the time of its last item. */
  ghost predicate TimesOf(details: seq<ResponseItem>, times: Dict<ModId, int>) {
    && times.Valid()
    && (forall i :: 0 <= i < |details| ==> details[i].publishedFileId in times.entries)
    && (forall id :: id in times.entries ==>
          exists i :: LastItemFor(details, id, i) && times.entries[id] == details[i].timeUpdated)
  }

  lemma {:induction false} LegacyCollectOkIff(itemIds: seq<ModId>, details: seq<ResponseItem>)
    ensures LegacyCollect(itemIds, details).Ok? <==> AllRequested(itemIds, details)
    decreases |details|
  {
    if details != [] {
      var n := |details|;
      LegacyCollectOkIff(itemIds, details[..n - 1]);
      assert forall i :: 0 <= i < n - 1 ==> details[..n - 1][i] == details[i];
    }
  }

  /** An item for another id does not change which item is last for `id`. */
  lemma LastItemExtends(init: seq<ResponseItem>, item: ResponseItem, id: ModId, i: int)
    requires LastItemFor(init, id, i) && item.publishedFileId != id
    ensures LastItemFor(init + [item], id, i)
  {
  }

  lemma {:induction false} LegacyCollectTimes(itemIds: seq<ModId>, details: seq<ResponseItem>)
    requires LegacyCollect(itemIds, details).Ok?
    ensures TimesOf(details, LegacyCollect(itemIds, details).value)
    decreases |details|
  {
    if details != [] {
      var n := |details|;
      var init, item := details[..n - 1], details[n - 1];
      assert details == init + [item];
      LegacyCollectTimes(itemIds, init);
      var prev := LegacyCollect(itemIds, init).value;
      var r := LegacyCollect(itemIds, details).value;
      assert r == Put(prev, item.publishedFileId, item.timeUpdated);
      forall i | 0 <= i < n
        ensures details[i].publishedFileId in r.entries
      {
        if i < n - 1 {
          assert init[i] == details[i];
        }
      }
      forall id | id in r.entries
        ensures exists i :: LastItemFor(details, id, i) && r.entries[id] == details[i].timeUpdated
      {
        if id == item.publishedFileId {
          assert LastItemFor(details, id, n - 1);
        } else {
          var i :| LastItemFor(init, id, i) && prev.entries[id] == init[i].timeUpdated;
          LastItemExtends(init, item, id, i);
        }
      }
    }
  }

  lemma {:induction false} LegacyCollectErrPersists(itemIds: seq<ModId>, details: seq<ResponseItem>, n: nat)
    requires n <= |details|
    requires LegacyCollect(itemIds, details[..n]).Err?
    ensures LegacyCollect(itemIds, details) == LegacyCollect(itemIds, details[..n])
    decreases |details| - n
  {
    if n < |details| {
      assert details[..n + 1][..n] == details[..n];
      LegacyCollectErrPersists(itemIds, details, n + 1);
    } else {
      assert details[..n] == details;
    }
  }

  /**
   * What the legacy `fetch_workshop_pages` returns for the parsed response:
   * the two header checks, then a failure on any returned id not requested
   * (even one whose own result is a failure); otherwise every returned id
   * mapped to the update time of its last item.
   */
  function LegacyValidate(itemIds: seq<ModId>, response: Response): (r: Result<Dict<ModId, int>, FetchError>)
    ensures response.resultCount != |itemIds| ==> r == Err(CountMismatch(response.resultCount, |itemIds|))
    ensures response.resultCount == |itemIds| && response.result != ResultOk ==> r == Err(BadResult(response.result))
    ensures r.Ok? <==> && response.resultCount == |itemIds|
                       && response.result == ResultOk
                       && AllRequested(itemIds, response.publishedFileDetails)
    ensures r.Ok? ==> TimesOf(response.publishedFileDetails, r.value)
    ensures r.Ok? ==> forall id :: id in r.value.entries ==> id in itemIds
  {
    match HeaderError(itemIds, response)
    case Some(e) => Err(e)
    case None =>
      var details := response.publishedFileDetails;
      LegacyCollectOkIff(itemIds, details);
      if LegacyCollect(itemIds, details).Ok? then
        LegacyCollectTimes(itemIds, details);
        LegacyCollect(itemIds, details)
      else
        LegacyCollect(itemIds, details)
  }

  /** The legacy `fetch_workshop_pages(itemIds)`, given the parsed answer to its request. */
  method LegacyFetchWorkshopPages(itemIds: seq<ModId>, response: Response)
    returns (rawData: Dict<string, FormValue>, r: Result<Dict<ModId, int>, FetchError>)
    ensures EncodesRequest(itemIds, rawData)
    ensures r == LegacyValidate(itemIds, response)
  {
    rawData := BuildRequest(itemIds);
    if response.resultCount != |itemIds| {
      return rawData, Err(CountMismatch(response.resultCount, |itemIds|));
    }
    if response.result != ResultOk {
      return rawData, Err(BadResult(response.result));
    }
    var details := response.publishedFileDetails;
    var idToUpdateTimeMap: Dict<ModId, int> := Empty();
    var i := 0;
    while i < |details|
      invariant 0 <= i <= |details|
      invariant LegacyCollect(itemIds, details[..i]) == Ok(idToUpdateTimeMap)
    {
      var publishedFileId := details[i].publishedFileId;
      assert details[..i + 1][..i] == details[..i];
      if publishedFileId !in itemIds {
        LegacyCollectErrPersists(itemIds, details, i + 1);
        return rawData, Err(UnexpectedId(publishedFileId));
      }
      idToUpdateTimeMap := Put(idToUpdateTimeMap, publishedFileId, details[i].timeUpdated);
      i := i + 1;
    }
    assert details[..i] == details;
    r := Ok(idToUpdateTimeMap);
  }

  /** The JSON DB file `{"mods": {id: timestamp}}`. */
  datatype DbFile = DbFile(mods: map<ModId, int>)

  /** The timestamp standing for "not in the DB". */
  const Absent := -1

  /** The DB a run starts from: the file's mods, or `{"mods": {}}` when there is no file. */
  function LoadDb(dbFile: Option<DbFile>): (mods: map<ModId, int>)
    ensures dbFile.None? ==> mods == map[]
  {
    if dbFile.Some? then dbFile.value.mods else map[]
  }

  /** `last_timestamp`: the cached time, or the sentinel when the id is not cached. */
  function LastTimestamp(cache: map<ModId, int>, id: ModId): int {
    if id in cache then cache[id] else Absent
  }

  /** The ids reported as updated: fetched ids whose last timestamp differs from the current one. */
  function ChangedIds(cache: map<ModId, int>, fetched: map<ModId, int>): set<ModId> {
    set id | id in fetched && LastTimestamp(cache, id) != fetched[id]
  }

  /**
   * The cache after the loop: every fetched id holds its current time
   * (except an uncached id whose time equals the sentinel, which is never
   * stored), and every id not fetched is as it was.
   */
  function Refreshed(cache: map<ModId, int>, fetched: map<ModId, int>): (r: map<ModId, int>)
    ensures forall id :: id in fetched && (id in cache || fetched[id] != Absent) ==> id in r && r[id] == fetched[id]
    ensures forall id :: id in fetched && id !in cache && fetched[id] == Absent ==> id !in r
    ensures forall id :: id !in fetched ==> (id in r <==> id in cache) && (id in cache ==> r[id] == cache[id])
  {
    cache + map id | id in ChangedIds(cache, fetched) :: fetched[id]
  }

  /** The result set and the DB file after `update_db_and_return_updated`. */
  datatype DbUpdate = DbUpdate(updated: set<ModId>, dbFile: Option<DbFile>)

  /**
   * An id is reported iff it was fetched and its cached timestamp (or the
   * sentinel) differs from the current one — any difference, not only a
   * newer time; the file is rewritten with the refreshed cache iff something
   * was reported, and is otherwise left as it was (missing stays missing).
   */
  function UpdateDb(dbFile: Option<DbFile>, fetched: map<ModId, int>): (u: DbUpdate)
    ensures u.updated <= fetched.Keys
    ensures forall id :: id in u.updated <==> id in fetched && LastTimestamp(LoadDb(dbFile), id) != fetched[id]
    ensures u.updated == {} ==> u.dbFile == dbFile
    ensures u.updated != {} ==> u.dbFile == Some(DbFile(Refreshed(LoadDb(dbFile), fetched)))
  {
    var changed := ChangedIds(LoadDb(dbFile), fetched);
    DbUpdate(changed, if changed != {} then Some(DbFile(Refreshed(LoadDb(dbFile), fetched))) else dbFile)
  }

  /**
   * A second call with the same fetched times on the file the first call
   * left reports nothing and leaves the file alone.
   */
  lemma SecondUpdateReportsNothing(dbFile: Option<DbFile>, fetched: map<ModId, int>)
    ensures var first := UpdateDb(dbFile, fetched);
            UpdateDb(first.dbFile, fetched) == DbUpdate({}, first.dbFile)
  {
  }

  /**
   * `update_db_and_return_updated(json_db_file, fetched)`: copies the DB's
   * mods, walks the fetched ids in order, records every change in the copy
   * and in the result set, and writes the copy back only if `had_update`.
   */
  method UpdateDbAndReturnUpdated(dbFile: Option<DbFile>, fetched: Dict<ModId, int>)
    returns (resultSet: set<ModId>, dbFileOut: Option<DbFile>)
    requires fetched.Valid()
    ensures DbUpdate(resultSet, dbFileOut) == UpdateDb(dbFile, fetched.entries)
  {
    var cache := LoadDb(dbFile);
    var jsonModList := cache;
    resultSet := {};
    var hadUpdate := false;
    var i := 0;
    while i < |fetched.keys|
      invariant 0 <= i <= |fetched.keys|
      invariant hadUpdate <==> resultSet != {}
      invariant forall id :: id in resultSet <==>
                  id in fetched.keys[..i] && LastTimestamp(cache, id) != fetched.entries[id]
      invariant forall id :: id !in resultSet ==> (id in jsonModList <==> id in cache)
      invariant forall id :: id !in resultSet && id in cache ==> jsonModList[id] == cache[id]
      invariant forall id :: id in resultSet ==> id in jsonModList && jsonModList[id] == fetched.entries[id]
    {
      var itemId := fetched.keys[i];
      var currentTimestamp := fetched.entries[itemId];
      assert fetched.keys[..i + 1] == fetched.keys[..i] + [itemId];
      assert itemId !in fetched.keys[..i];
      var lastTimestamp := Absent;
      if itemId in jsonModList {
        lastTimestamp := jsonModList[itemId];
      }
      if lastTimestamp != currentTimestamp {
        resultSet := resultSet + {itemId};
        jsonModList := jsonModList[itemId := currentTimestamp];
        hadUpdate := true;
      }
      i := i + 1;
    }
    assert fetched.keys[..i] == fetched.keys;
    assert resultSet == ChangedIds(cache, fetched.entries);
    if hadUpdate {
      assert jsonModList == Refreshed(cache, fetched.entries);
      dbFileOut := Some(DbFile(jsonModList));
    } else {
      dbFileOut := dbFile;
    }
  }

  /** `list(s)`: the elements of a set, each once, in an order the set decides. */
  method ListOf(s: set<ModId>) returns (xs: seq<ModId>)
    ensures Distinct(xs)
    ensures forall id :: id in xs <==> id in s
    ensures |xs| == |s|
  {
    xs := [];
    var rest := s;
    while rest != {}
      invariant rest <= s
      invariant Distinct(xs)
      invariant forall id :: id in xs <==> id in s && id !in rest
      invariant |xs| + |rest| == |s|
      decreases |rest|
    {
      var id :| id in rest;
      xs := xs + [id];
      rest := rest - {id};
    }
  }

  /** The `{'state': [...]}` file the script writes. */
  datatype LegacyState = LegacyState(state: seq<ModId>)

  /** The exit status and both files after one run of the script; `None` is a file it left alone. */
  datatype LegacyOutcome = LegacyOutcome(exitCode: int, dbFile: Option<DbFile>, stateFile: Option<LegacyState>)

  /** Python's status for an exception nobody catches. */
  const ExitUncaught := 1

  /**
   * One run of the script. No ids, or a response that fails validation,
   * raises before any file is written. Otherwise the DB is updated as
   * `UpdateDb` says and the state file lists exactly the reported ids.
   */
  method LegacyRun(modIds: seq<ModId>, response: Response, dbFile: Option<DbFile>) returns (r: LegacyOutcome)
    ensures |modIds| == 0 ==> r == LegacyOutcome(ExitUncaught, dbFile, None)
    ensures |modIds| > 0 && LegacyValidate(modIds, response).Err? ==> r == LegacyOutcome(ExitUncaught, dbFile, None)
    ensures |modIds| > 0 && LegacyValidate(modIds, response).Ok? ==>
              var u := UpdateDb(dbFile, LegacyValidate(modIds, response).value.entries);
              && r.exitCode == 0
              && r.dbFile == u.dbFile
              && r.stateFile.Some?
              && Distinct(r.stateFile.value.state)
              && forall id :: id in r.stateFile.value.state <==> id in u.updated
  {
    var modIdCount := |modIds|;
    if modIdCount <= 0 {
      return LegacyOutcome(ExitUncaught, dbFile, None);
    }
    var _, fetched := LegacyFetchWorkshopPages(modIds, response);
    if fetched.Err? {
      return LegacyOutcome(ExitUncaught, dbFile, None);
    }
    var updatedModIds, dbFileOut := UpdateDbAndReturnUpdated(dbFile, fetched.value);
    var state := ListOf(updatedModIds);
    r := LegacyOutcome(0, dbFileOut, Some(LegacyState(state)));
  }
}
