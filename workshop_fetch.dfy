/**
 * `fetch_workshop_pages` of the current tool: check the response header,
 * skip every item whose own result is not success, refuse a successful item
 * nobody asked for, and map each id to its title and update time.
 */
module WorkshopFetch {
  import opened Wrappers
  import opened PyDict
  import opened WorkshopApi

  /** The `{'name': ..., 'timestamp': ...}` record kept per mod. */
  datatype ModInfo = ModInfo(name: string, timestamp: int)

  function InfoOf(item: ResponseItem): ModInfo {
    ModInfo(item.title, item.timeUpdated)
  }

  /** Every item that reports success names a requested id. */
  ghost predicate SuccessesRequested(itemIds: seq<ModId>, details: seq<ResponseItem>) {
    forall i :: 0 <= i < |details| && details[i].result == ResultOk ==> details[i].publishedFileId in itemIds
  }

  /** `details[i]` is the last successful item for `id`: the one whose data the dict keeps. */
  ghost predicate LastSuccessFor(details: seq<ResponseItem>, id: ModId, i: int) {
    && 0 <= i < |details|
    && details[i].result == ResultOk
    && details[i].publishedFileId == id
    && forall j :: i < j < |details| && details[j].result == ResultOk ==> details[j].publishedFileId != id
  }

  /** The ids of the successful items, in the order the answer lists them. */
  function SuccessIds(details: seq<ResponseItem>): (ids: seq<ModId>)
    ensures forall id :: id in ids <==> exists i :: 0 <= i < |details| && details[i].result == ResultOk && details[i].publishedFileId == id
    decreases |details|
  {
    if details == [] then []
    else
      var n := |details|;
      var init := SuccessIds(details[..n - 1]);
      assert forall i :: 0 <= i < n - 1 ==> details[..n - 1][i] == details[i];
      if details[n - 1].result == ResultOk then init + [details[n - 1].publishedFileId] else init
  }

  /**
   * `modInfo` holds exactly the ids of the successful items, all of them
   * requested, each with the title and time of its last successful item.
   */
  ghost predicate DescribesDetails(itemIds: seq<ModId>, details: seq<ResponseItem>, modInfo: Dict<ModId, ModInfo>) {
    && modInfo.Valid()
    && (forall id :: id in modInfo.entries ==> id in itemIds)
    && (forall i :: 0 <= i < |details| && details[i].result == ResultOk ==> details[i].publishedFileId in modInfo.entries)
    && (forall id :: id in modInfo.entries ==>
          exists i :: LastSuccessFor(details, id, i) && modInfo.entries[id] == InfoOf(details[i]))
  }

  /** The item loop of `fetch_workshop_pages`, over a prefix of the items. */
  function CollectDetails(itemIds: seq<ModId>, details: seq<ResponseItem>): (r: Result<Dict<ModId, ModInfo>, FetchError>)
    ensures r.Ok? ==> r.value.Valid()
    decreases |details|
  {
    if details == [] then Ok(Empty())
    else
      var item := details[|details| - 1];
      match CollectDetails(itemIds, details[..|details| - 1])
      case Err(e) => Err(e)
      case Ok(modInfo) =>
        if item.result != ResultOk then Ok(modInfo)
        else if item.publishedFileId !in itemIds then Err(UnexpectedId(item.publishedFileId))
        else Ok(Put(modInfo, item.publishedFileId, InfoOf(item)))
  }

  /**
   * The item loop fails exactly when a successful item names an id nobody
   * asked for: a failed item is skipped before its id is looked at, so it
   * never fails the fetch.
   */
  lemma {:induction false} CollectDetailsOkIff(itemIds: seq<ModId>, details: seq<ResponseItem>)
    ensures CollectDetails(itemIds, details).Ok? <==> SuccessesRequested(itemIds, details)
    decreases |details|
  {
    if details != [] {
      var n := |details|;
      CollectDetailsOkIff(itemIds, details[..n - 1]);
      assert forall i :: 0 <= i < n - 1 ==> details[..n - 1][i] == details[i];
    }
  }

  /** A failing item loop names the first successful item with an id nobody asked for. */
  lemma {:induction false} CollectDetailsNamesFirstUnexpected(itemIds: seq<ModId>, details: seq<ResponseItem>)
    requires CollectDetails(itemIds, details).Err?
    ensures exists i :: && 0 <= i < |details|
                        && details[i].result == ResultOk
                        && details[i].publishedFileId !in itemIds
                        && CollectDetails(itemIds, details).error == UnexpectedId(details[i].publishedFileId)
                        && SuccessesRequested(itemIds, details[..i])
    decreases |details|
  {
    var n := |details|;
    var init := details[..n - 1];
    if CollectDetails(itemIds, init).Err? {
      CollectDetailsNamesFirstUnexpected(itemIds, init);
      var i :| && 0 <= i < |init| && init[i].result == ResultOk && init[i].publishedFileId !in itemIds
               && CollectDetails(itemIds, init).error == UnexpectedId(init[i].publishedFileId)
               && SuccessesRequested(itemIds, init[..i]);
      assert details[i] == init[i];
      assert details[..i] == init[..i];
    } else {
      CollectDetailsOkIff(itemIds, init);
      assert details[..n - 1] == init;
    }
  }

  /** A successful item loop stores the ids in the order of their first successful item. */
  lemma {:induction false} CollectDetailsKeyOrder(itemIds: seq<ModId>, details: seq<ResponseItem>)
    requires CollectDetails(itemIds, details).Ok?
    ensures CollectDetails(itemIds, details).value.keys == FirstOccurrences(SuccessIds(details))
    decreases |details|
  {
    if details != [] {
      var n := |details|;
      var init, item := details[..n - 1], details[n - 1];
      CollectDetailsKeyOrder(itemIds, init);
      var ids := SuccessIds(details);
      if item.result == ResultOk {
        assert ids[..|ids| - 1] == SuccessIds(init);
      }
    }
  }

  /** An item that is not a success for `id` does not change which success is last for `id`. */
  lemma LastSuccessExtends(init: seq<ResponseItem>, item: ResponseItem, id: ModId, i: int)
    requires LastSuccessFor(init, id, i) && (item.result != ResultOk || item.publishedFileId != id)
    ensures LastSuccessFor(init + [item], id, i)
  {
  }

  /** A successful item loop describes the items. */
  lemma {:induction false} CollectDetailsDescribes(itemIds: seq<ModId>, details: seq<ResponseItem>)
    requires CollectDetails(itemIds, details).Ok?
    ensures DescribesDetails(itemIds, details, CollectDetails(itemIds, details).value)
    decreases |details|
  {
    if details != [] {
      var n := |details|;
      var init, item := details[..n - 1], details[n - 1];
      assert details == init + [item];
      CollectDetailsDescribes(itemIds, init);
      var modInfo := CollectDetails(itemIds, init).value;
      var r := CollectDetails(itemIds, details).value;
      var stored := item.result == ResultOk;
      assert r == if stored then Put(modInfo, item.publishedFileId, InfoOf(item)) else modInfo;
      forall i | 0 <= i < n && details[i].result == ResultOk
        ensures details[i].publishedFileId in r.entries
      {
        if i < n - 1 {
          assert init[i] == details[i];
        }
      }
      forall id | id in r.entries
        ensures exists i :: LastSuccessFor(details, id, i) && r.entries[id] == InfoOf(details[i])
      {
        if stored && id == item.publishedFileId {
          assert LastSuccessFor(details, id, n - 1);
        } else {
          var i :| LastSuccessFor(init, id, i) && modInfo.entries[id] == InfoOf(init[i]);
          LastSuccessExtends(init, item, id, i);
        }
      }
    }
  }

  /** Once a prefix of the items has failed, the whole loop fails with the same error. */
  lemma {:induction false} CollectDetailsErrPersists(itemIds: seq<ModId>, details: seq<ResponseItem>, n: nat)
    requires n <= |details|
    requires CollectDetails(itemIds, details[..n]).Err?
    ensures CollectDetails(itemIds, details) == CollectDetails(itemIds, details[..n])
    decreases |details| - n
  {
    if n < |details| {
      assert details[..n + 1][..n] == details[..n];
      CollectDetailsErrPersists(itemIds, details, n + 1);
    } else {
      assert details[..n] == details;
    }
  }

  /**
   * What `fetch_workshop_pages` returns for the parsed response: the header
   * checks come first and fail regardless of the items; then the items.
   */
  function Validate(itemIds: seq<ModId>, response: Response): (r: Result<Dict<ModId, ModInfo>, FetchError>)
    ensures response.resultCount != |itemIds| ==> r == Err(CountMismatch(response.resultCount, |itemIds|))
    ensures response.resultCount == |itemIds| && response.result != ResultOk ==> r == Err(BadResult(response.result))
    ensures r.Ok? <==> && response.resultCount == |itemIds|
                       && response.result == ResultOk
                       && SuccessesRequested(itemIds, response.publishedFileDetails)
    ensures r.Ok? ==> DescribesDetails(itemIds, response.publishedFileDetails, r.value)
    ensures r.Ok? ==> r.value.keys == FirstOccurrences(SuccessIds(response.publishedFileDetails))
    ensures r.Err? && response.resultCount == |itemIds| && response.result == ResultOk ==>
              exists i :: && 0 <= i < |response.publishedFileDetails|
                          && response.publishedFileDetails[i].result == ResultOk
                          && response.publishedFileDetails[i].publishedFileId !in itemIds
                          && r.error == UnexpectedId(response.publishedFileDetails[i].publishedFileId)
                          && SuccessesRequested(itemIds, response.publishedFileDetails[..i])
  {
    match HeaderError(itemIds, response)
    case Some(e) => Err(e)
    case None =>
      var details := response.publishedFileDetails;
      CollectDetailsOkIff(itemIds, details);
      if CollectDetails(itemIds, details).Ok? then
        CollectDetailsDescribes(itemIds, details);
        CollectDetailsKeyOrder(itemIds, details);
        CollectDetails(itemIds, details)
      else
        CollectDetailsNamesFirstUnexpected(itemIds, details);
        CollectDetails(itemIds, details)
  }

  /**
   * `fetch_workshop_pages(itemIds)`, given the parsed answer to the request
   * it builds: returns that request and the validated mapping.
   */
  method FetchWorkshopPages(itemIds: seq<ModId>, response: Response)
    returns (rawData: Dict<string, FormValue>, r: Result<Dict<ModId, ModInfo>, FetchError>)
    ensures EncodesRequest(itemIds, rawData)
    ensures r == Validate(itemIds, response)
  {
    rawData := BuildRequest(itemIds);
    if response.resultCount != |itemIds| {
      return rawData, Err(CountMismatch(response.resultCount, |itemIds|));
    }
    if response.result != ResultOk {
      return rawData, Err(BadResult(response.result));
    }
    var details := response.publishedFileDetails;
    var modInfo: Dict<ModId, ModInfo> := Empty();
    var i := 0;
    while i < |details|
      invariant 0 <= i <= |details|
      invariant CollectDetails(itemIds, details[..i]) == Ok(modInfo)
    {
      var item := details[i];
      assert details[..i + 1][..i] == details[..i];
      if item.result != ResultOk {
        i := i + 1;
        continue;
      }
      if item.publishedFileId !in itemIds {
        CollectDetailsErrPersists(itemIds, details, i + 1);
        return rawData, Err(UnexpectedId(item.publishedFileId));
      }
      modInfo := Put(modInfo, item.publishedFileId, InfoOf(item));
      i := i + 1;
    }
    assert details[..i] == details;
    r := Ok(modInfo);
  }
}
