# Steam Workshop mod update checker — a Dafny model

This project models the decision logic of a Steam Workshop mod update
checker, in both of its generations.

The current tool is `src/workshop_checker/update_db.py`. It asks the Steam Web API
(`GetPublishedFileDetails`) for the published title and update time of each
mod id. It validates the answer and compares each published time with the
time of the locally installed copy. Then it notifies admins by mail and
Discord, skipping a channel when every updated id is already in the list it
was last sent. It persists a small JSON state
(`mods_info`, `last_mailed`, `last_discord`) and exits with 0 (nothing to do),
4 (updates found) or 3 (the API answer failed validation); a send that raises
ends it with Python's status 1, an empty id list with argparse's status 2.

The legacy tool is the root `update_db.py`. It compares the fetched update times
with a JSON cache of the times seen last. It reports every id whose time
*differs*, rewrites the cache when something changed, and writes the
reported ids to a state file.

Everything outside the process is a parameter:
- the parsed API answer (`WorkshopApi.Response`);
- the installed mods (`map<ModId, int>`, what `get_local_state` reads from the ACF manifest);
- the previous state file (`Option<StateFile>`, `None` when there is none);
- the legacy DB file (`Option<DbFile>`);
- whether `send_mail` and `webhook.execute()` return or raise (`Checker.Sinks`).

Python's insertion-ordered `dict` is `PyDict.Dict`: a sequence of keys in
insertion order plus a map. `d[k] = v` is `PyDict.Put`. Iteration order is
therefore part of the model. The fetched mapping lists the ids in the order of
their first successful item in the API's answer (`PyDict.FirstOccurrences` of
`WorkshopFetch.SuccessIds`); a later item for the same id overwrites the value
but keeps the position. `check_updates` keeps that order.

Modules, leaves first:
- `Wrappers` and `PyDict`: general-purpose types.
- `Text`: decimal rendering and `str.join`.
- `WorkshopApi`: the request form, the response and the header checks shared by both generations.
- `WorkshopFetch`: the current `fetch_workshop_pages`.
- `Reconciler`: `check_mod_update` and `check_updates`.
- `Checker`: the body of `main`.
- `LegacyUpdateDb`: the whole legacy script.

Each `for` loop of the source is a `while` loop in a `method`. The method is
proved equal to a specification function (a left fold over a prefix of the input,
or a set or map comprehension) or shown to satisfy a predicate (`BuildRequest`
and `EncodesRequest`). The properties are then proved about that function.
The `any(...)` generators of `main` are the recursive function `Checker.NeedsNotify`.

Where the code behaves differently from what its comments say or a reader might expect, the model follows the code:
- The header comment of `src/workshop_checker/update_db.py` (line 6) promises exit status 1 for updates. The code uses 4 (line 286).
- A send that fails is not caught. The exception ends the run with Python's status 1, before the state file is written. So neither de-duplication list advances. A mail that was already sent before a failed Discord post is sent again on the next run.
- A channel is due only when some *updated* id is missing from its list. An id that is in the list but no longer updated does not make the channel due.
- Each list holds only the ids of the last message on its channel. Updates [A], then [B], then [A] on three runs announce A twice; a rerun on unchanged inputs is silent (`Checker.RerunSendsNothing`).
- The current `fetch_workshop_pages` does not reject an empty id list. That rejection is argparse's (`nargs='+'`, usage status 2). Only the legacy script raises on zero ids.

The legacy cache uses `-1` as its "absent" sentinel, and the model keeps that. An uncached id whose published
time is itself `-1` is neither reported nor stored. `LegacyUpdateDb.Refreshed` states this case
explicitly.

## Model

| member | source | states |
|---|---|---|
| `WorkshopApi.BuildRequest` | src/workshop_checker/update_db.py:48-54 | the form holds `itemcount = len(itemIds)` first, then `publishedfileids[i] = itemIds[i]` for every index, and no other field |
| `WorkshopApi.FieldNameInjective` | src/workshop_checker/update_db.py:53 | distinct indices give distinct field names, none equal to `itemcount`, so no field overwrites another |
| `Text.DecimalInjective` | src/workshop_checker/update_db.py:53 | the decimal rendering used in field names and in the digest is injective |
| `WorkshopApi.HeaderError` | src/workshop_checker/update_db.py:64-73 | the count check comes before the result check, and the header passes iff `resultcount == len(itemIds)` and `result == 1` |
| `WorkshopFetch.Validate` | src/workshop_checker/update_db.py:64-94 | a count mismatch or a bad global result fails whatever the items are; the fetch succeeds iff the header passes and every successful item names a requested id; a failure after the header names the first successful item with an unrequested id; on success the mapping describes the items and its keys are the successful ids in the order of their first occurrence |
| `WorkshopFetch.CollectDetailsOkIff` | src/workshop_checker/update_db.py:78-89 | the item loop fails iff a successful item has an unrequested id; a failed item never fails the fetch, even with an unknown id |
| `WorkshopFetch.CollectDetailsNamesFirstUnexpected` | src/workshop_checker/update_db.py:86-89 | a failing loop names the first successful item whose id was not requested |
| `PyDict.FirstOccurrences` | src/workshop_checker/update_db.py:90-93 | the elements in the order of their first occurrence: exactly the elements of the input, each once |
| `PyDict.FirstOccurrencesInOrder` | src/workshop_checker/update_db.py:90-93 | of two listed elements, the one listed first occurs in the input before the other occurs at all |
| `WorkshopFetch.SuccessIds` | src/workshop_checker/update_db.py:78-85 | an id is listed iff some item with that id reports success |
| `WorkshopFetch.CollectDetailsKeyOrder` | src/workshop_checker/update_db.py:77-93 | the keys of the mapping are the ids of the successful items in the order of their first successful item; a repeated id keeps its first position |
| `WorkshopFetch.CollectDetailsDescribes` | src/workshop_checker/update_db.py:77-94 | keys ⊆ requested ids; every successful item's id is a key; each key maps to `{name: title, timestamp: time_updated}` of its last successful item; failed items contribute nothing |
| `WorkshopFetch.CollectDetailsErrPersists` | src/workshop_checker/update_db.py:86-89 | once an item raises, the rest of the answer is not looked at |
| `WorkshopFetch.FetchWorkshopPages` | src/workshop_checker/update_db.py:45-94 | the loop builds the request and returns exactly `Validate` of the answer |
| `Reconciler.CheckModUpdate` | src/workshop_checker/update_db.py:113-133 | a mod that is not installed needs an update iff `download_new`; an installed one iff local < workshop (strict; equal or newer local gives false) |
| `Reconciler.UpdatedIdsMembers` | src/workshop_checker/update_db.py:138-145 | an id is in the result iff it is a key of `mods_info` and `check_mod_update` says true |
| `Reconciler.UpdatedIdsInOrder` | src/workshop_checker/update_db.py:141-144 | the result keeps the iteration order of `mods_info` |
| `Reconciler.UpdatedIdsDistinct` | src/workshop_checker/update_db.py:141-145 | distinct keys give a result without duplicates |
| `Reconciler.CheckUpdates` | src/workshop_checker/update_db.py:136-145 | the loop returns exactly the keys that need an update, in iteration order, each once |
| `Checker.LoadedList` | src/workshop_checker/update_db.py:230-239 | a missing state file gives empty de-duplication lists |
| `Checker.NeedsNotify` | src/workshop_checker/update_db.py:259-262 | a channel needs a message iff some updated id is not in its list |
| `Checker.CombinedLines` | src/workshop_checker/update_db.py:249-254 | one `"id - name"` line per updated id, in order |
| `Checker.CombineLines` | src/workshop_checker/update_db.py:249-254 | the loop that appends to `mods_combined` yields those lines |
| `Checker.Agreement` | src/workshop_checker/update_db.py:264-270 | one mod gives "mod needs", any other count gives "mods need" |
| `Checker.Digest` | src/workshop_checker/update_db.py:264-270 | the text opens with the headline "Yo, at least <count>" plus the agreeing noun and verb, and ends with a newline |
| `Text.JoinHasPart` | src/workshop_checker/update_db.py:270 | every part occurs in `sep.join(parts)` |
| `Checker.DigestListsEveryLine` | src/workshop_checker/update_db.py:264-270 | every line handed to the digest occurs in its text |
| `Checker.DigestNamesEveryMod` | src/workshop_checker/update_db.py:249-270 | the digest built from the updated ids names each of them as `"id - name"` |
| `Checker.DigestSingularIffOne` | src/workshop_checker/update_db.py:264-270 | the headline reads "1 mod needs an update" iff exactly one mod needs one |
| `Checker.NotifyAdmins` | src/workshop_checker/update_db.py:257-282 | the notification step as written: mail first, then Discord; each list is replaced by the updated ids only once its own send has returned |
| `Checker.RunOutcome` | src/workshop_checker/update_db.py:222-299 | the exit is one of 0-4; exit 2 iff no ids; exit 3 iff validation fails, and then nothing is sent; exit 1 iff a due send raises, and then only the mail went out, if it was due and its send returned; the state is written iff the exit is 0 or 4, so always when the fetch succeeded and no send raised; exit 4 iff checking found updates; the written `mods_info` is the fetched mapping in full; each list becomes the updated ids iff its channel was due, else it keeps the loaded value (`[]` without a file); exactly the due channels receive the digest |
| `Checker.RunChecker` | src/workshop_checker/update_db.py:222-299 | `main` with its reassignments computes exactly `Run`, so `RunOutcome` holds of it |
| `Checker.RerunSendsNothing` | src/workshop_checker/update_db.py:257-297 | a second run with the same inputs on the state a normal run wrote sends nothing and writes the same state with the same exit code |
| `Checker.NotifyAgainSendsNothing` | src/workshop_checker/update_db.py:257-282 | with the lists a completed notification step left, the step sends nothing and keeps both lists |
| `Checker.FreshStateWithoutUpdates` | src/workshop_checker/update_db.py:230-297 | with no state file and no updates, a checking run exits 0, sends nothing and writes the fetched mapping with empty lists |
| `Checker.TwoModsFetched` | src/workshop_checker/update_db.py:77-93 | an answer listing mods 100 and 200, both successful, gives the mapping with keys 100 then 200 and their titles and times |
| `Checker.NewModNeedsDownload` | src/workshop_checker/update_db.py:113-145 | mod 100 installed at its published time and mod 200 not installed: only 200 needs an update, and none with `--only-existing` |
| `LegacyUpdateDb.LegacyValidate` | update_db.py:26-39 | count mismatch, then bad global result, then any returned id not requested (no per-item skip) fails; otherwise each returned id maps to the `time_updated` of its last item, and keys ⊆ requested ids |
| `LegacyUpdateDb.LegacyCollectOkIff` | update_db.py:33-37 | the item loop fails iff some returned id, whatever its own result, was not requested |
| `LegacyUpdateDb.LegacyCollectTimes` | update_db.py:32-39 | every returned id is a key, mapped to the time of its last item |
| `LegacyUpdateDb.LegacyFetchWorkshopPages` | update_db.py:8-39 | the loop builds the request and returns exactly `LegacyValidate` of the answer |
| `LegacyUpdateDb.LoadDb` | update_db.py:43-50 | a missing DB file starts from the empty `{"mods": {}}` |
| `LegacyUpdateDb.Refreshed` | update_db.py:54-69 | every fetched id then holds its current time (except an uncached id whose time is the `-1` sentinel); ids not fetched are unchanged |
| `LegacyUpdateDb.UpdateDb` | update_db.py:52-75 | reported ⊆ fetched ids; an id is reported iff its cached time (or `-1`) differs (`!=`, not `<`) from the current one; the file is rewritten with the refreshed cache iff something was reported, otherwise left as it was |
| `LegacyUpdateDb.SecondUpdateReportsNothing` | update_db.py:42-75 | a second call with the same times on the file the first call left reports nothing and leaves the file alone |
| `LegacyUpdateDb.UpdateDbAndReturnUpdated` | update_db.py:42-75 | the loop with `json_mod_list`, `result_set` and `had_update` computes exactly `UpdateDb` |
| `LegacyUpdateDb.ListOf` | update_db.py:106 | `list(updatedModIds)` lists each reported id exactly once |
| `LegacyUpdateDb.LegacyRun` | update_db.py:88-108 | zero ids, or an answer that fails validation, raise before any file is written; otherwise the DB is updated as `UpdateDb` says and the state file is `{'state': [...]}` listing exactly the reported ids |

## Left out

- HTTP (`urlopen`), urlencoding of the form, JSON text decoding and `json.dump` formatting: the model starts from the parsed answer and ends at the record to be written.
- A response item that lacks one of its four fields, or JSON values of the wrong type (Python `KeyError`/`TypeError`): items always carry all four fields here.
- Reading the ACF manifest (`get_local_state`, `steamfiles.acf`): the installed mods are a parameter. A malformed manifest is not modelled.
- SMTP/TLS (`send_mail`), the Discord webhook and the secrets they import: a send is only whether the call returns or raises (`Checker.Sinks`), and the message it carries.
- Logging, `traceback.print_exc`, the `print` messages of the legacy script, and argparse. The one exception is the usage error for an empty id list in the current tool.
- A malformed state file or DB file (JSON parse error), and a DB file without a `"mods"` key: files are either absent or well-formed here.
- The `mods_info` part of a loaded state file: `main` never reads it.
- The order of keys inside the legacy DB file: the cache is a `map`, because the order affects only the text written.
- `LegacyUpdateDb.ListOf`: Python's `list(set)` order depends on string hashing; the model fixes no order and states only that every reported id is listed exactly once.
- `check_update.py`, `check_state.py`, `src/workshop_checker/check_update.py`: command-line wrappers that map one `check_mod_update` call or one membership test to exit 0/1; the decision they use is modelled.
- `src/workshop_checker/cli.py` and `src/workshop_checker/models/config.py`: a placeholder CLI and configuration loading.
