/**
 * The Steam Web API call `ISteamRemoteStorage/GetPublishedFileDetails/v1`
 * as both generations of the checker use it: the form fields of the POST
 * request, the parsed JSON response, and the two checks on the response
 * header that both generations make before looking at any item.
 */
module WorkshopApi {
  import opened Wrappers
  import opened PyDict
  import opened Text

  /** A published file id, kept as the string the API and the CLI use. */
  type ModId = string

  /** Steam's `EResult` value for success. */
  const ResultOk := 1

  /** One element of `response.publishedfiledetails`. */
  datatype ResponseItem = ResponseItem(publishedFileId: ModId, result: int, title: string, timeUpdated: int)

  /** The parsed `response` object. */
  datatype Response = Response(resultCount: int, result: int, publishedFileDetails: seq<ResponseItem>)

  /** The `ValueError`s raised while reading a response. */
  datatype FetchError =
    | CountMismatch(returned: int, expected: nat)
    | BadResult(result: int)
    | UnexpectedId(id: ModId)

  /** A value of the urlencoded form: the item count is an int, the ids are strings. */
  datatype FormValue = IntField(n: int) | StrField(s: string)

  const ItemCountField := "itemcount"

  /** `'publishedfileids[{}]'.format(i)` */
  function FieldName(i: nat): string {
    "publishedfileids[" + Decimal(i) + "]"
  }

  /** No two indices share a field name, and no index field is the count field. */
  lemma FieldNameInjective(i: nat, j: nat)
    ensures FieldName(i) == FieldName(j) ==> i == j
    ensures FieldName(i) != ItemCountField
  {
    var prefix := "publishedfileids[";
    if FieldName(i) == FieldName(j) {
      assert FieldName(i)[|prefix|..|FieldName(i)| - 1] == Decimal(i);
      assert FieldName(j)[|prefix|..|FieldName(j)| - 1] == Decimal(j);
      DecimalInjective(i, j);
    }
    assert FieldName(i)[0] == 'p' != ItemCountField[0];
  }

  /**
   * The request form for `itemIds`: `itemcount` first, then one field
   * `publishedfileids[i]` holding `itemIds[i]` for every index, and nothing else.
   */
  ghost predicate EncodesRequest(itemIds: seq<ModId>, rawData: Dict<string, FormValue>) {
    && rawData.Valid()
    && |rawData.keys| == |itemIds| + 1
    && rawData.keys[0] == ItemCountField
    && ItemCountField in rawData.entries
    && rawData.entries[ItemCountField] == IntField(|itemIds|)
    && forall i :: 0 <= i < |itemIds| ==>
         && rawData.keys[i + 1] == FieldName(i)
         && FieldName(i) in rawData.entries
         && rawData.entries[FieldName(i)] == StrField(itemIds[i])
  }

  /** Builds `raw_data` with the counter loop of `fetch_workshop_pages`. */
  method BuildRequest(itemIds: seq<ModId>) returns (rawData: Dict<string, FormValue>)
    ensures EncodesRequest(itemIds, rawData)
  {
    rawData := Put(Empty(), ItemCountField, IntField(|itemIds|));
    var currentItemCount := 0;
    while currentItemCount < |itemIds|
      invariant 0 <= currentItemCount <= |itemIds|
      invariant rawData.Valid()
      invariant |rawData.keys| == currentItemCount + 1 && rawData.keys[0] == ItemCountField
      invariant ItemCountField in rawData.entries && rawData.entries[ItemCountField] == IntField(|itemIds|)
      invariant forall i :: 0 <= i < currentItemCount ==>
                  && rawData.keys[i + 1] == FieldName(i)
                  && FieldName(i) in rawData.entries
                  && rawData.entries[FieldName(i)] == StrField(itemIds[i])
    {
      var name := FieldName(currentItemCount);
      forall k | 0 <= k < |rawData.keys|
        ensures rawData.keys[k] != name
      {
        if k == 0 {
          FieldNameInjective(currentItemCount, 0);
        } else {
          FieldNameInjective(currentItemCount, k - 1);
        }
      }
      FieldNameInjective(currentItemCount, 0);
      rawData := Put(rawData, name, StrField(itemIds[currentItemCount]));
      currentItemCount := currentItemCount + 1;
    }
  }

  /**
   * The two header checks, in the order both generations make them: the
   * result count against the number of ids requested, then the global result.
   */
  function HeaderError(itemIds: seq<ModId>, response: Response): (e: Option<FetchError>)
    ensures e == None <==> response.resultCount == |itemIds| && response.result == ResultOk
    ensures response.resultCount != |itemIds| ==> e == Some(CountMismatch(response.resultCount, |itemIds|))
    ensures response.resultCount == |itemIds| && response.result != ResultOk ==> e == Some(BadResult(response.result))
  {
    if response.resultCount != |itemIds| then Some(CountMismatch(response.resultCount, |itemIds|))
    else if response.result != ResultOk then Some(BadResult(response.result))
    else None
  }
}
