/**
 * `check_mod_update` and `check_updates`: decide, per mod, whether the
 * workshop holds something newer than what is installed locally.
 */
module Reconciler {
  import opened PyDict
  import opened WorkshopApi
  import opened WorkshopFetch

  /**
   * A mod that is not installed needs an update exactly when new mods are
   * to be downloaded; an installed one exactly when its local timestamp is
   * strictly older than the workshop's (an equal or newer local copy is left
   * alone).
   */
  function CheckModUpdate(modId: ModId, workshopTimestamp: int, localMods: map<ModId, int>, downloadNew: bool): (needsUpdate: bool)
    ensures modId !in localMods ==> needsUpdate == downloadNew
    ensures modId in localMods ==> (needsUpdate <==> localMods[modId] < workshopTimestamp)
    ensures modId in localMods && workshopTimestamp <= localMods[modId] ==> !needsUpdate
  {
    if modId !in localMods then downloadNew
    else localMods[modId] < workshopTimestamp
  }

  /** `sub` is `s` with some elements left out, the rest in their order. */
  ghost predicate IsSubsequence<T>(sub: seq<T>, s: seq<T>)
    decreases |s|
  {
    if sub == [] then true
    else if s == [] then false
    else
      || (sub[|sub| - 1] == s[|s| - 1] && IsSubsequence(sub[..|sub| - 1], s[..|s| - 1]))
      || IsSubsequence(sub, s[..|s| - 1])
  }

  /** The list `check_updates` builds after visiting `keys`. */
  function UpdatedIds(keys: seq<ModId>, modsInfo: map<ModId, ModInfo>, localMods: map<ModId, int>, downloadNew: bool): seq<ModId>
    requires forall k :: k in keys ==> k in modsInfo
    decreases |keys|
  {
    if keys == [] then []
    else
      var id := keys[|keys| - 1];
      var earlier := UpdatedIds(keys[..|keys| - 1], modsInfo, localMods, downloadNew);
      if CheckModUpdate(id, modsInfo[id].timestamp, localMods, downloadNew) then earlier + [id] else earlier
  }

  /** The updated ids are exactly the keys that need an update. */
  lemma {:induction false} UpdatedIdsMembers(keys: seq<ModId>, modsInfo: map<ModId, ModInfo>, localMods: map<ModId, int>, downloadNew: bool)
    requires forall k :: k in keys ==> k in modsInfo
    ensures forall id :: id in UpdatedIds(keys, modsInfo, localMods, downloadNew) <==>
                           id in keys && CheckModUpdate(id, modsInfo[id].timestamp, localMods, downloadNew)
    decreases |keys|
  {
    if keys != [] {
      var n := |keys|;
      UpdatedIdsMembers(keys[..n - 1], modsInfo, localMods, downloadNew);
      assert keys == keys[..n - 1] + [keys[n - 1]];
    }
  }

  /** The updated ids keep the iteration order of the keys. */
  lemma {:induction false} UpdatedIdsInOrder(keys: seq<ModId>, modsInfo: map<ModId, ModInfo>, localMods: map<ModId, int>, downloadNew: bool)
    requires forall k :: k in keys ==> k in modsInfo
    ensures IsSubsequence(UpdatedIds(keys, modsInfo, localMods, downloadNew), keys)
    decreases |keys|
  {
    if keys != [] {
      var n := |keys|;
      var init := keys[..n - 1];
      UpdatedIdsInOrder(init, modsInfo, localMods, downloadNew);
      var earlier := UpdatedIds(init, modsInfo, localMods, downloadNew);
      var r := UpdatedIds(keys, modsInfo, localMods, downloadNew);
      if r == earlier + [keys[n - 1]] {
        assert r[..|r| - 1] == earlier;
      }
    }
  }

  /** Distinct keys give distinct updated ids. */
  lemma {:induction false} UpdatedIdsDistinct(keys: seq<ModId>, modsInfo: map<ModId, ModInfo>, localMods: map<ModId, int>, downloadNew: bool)
    requires forall k :: k in keys ==> k in modsInfo
    requires Distinct(keys)
    ensures Distinct(UpdatedIds(keys, modsInfo, localMods, downloadNew))
    decreases |keys|
  {
    if keys != [] {
      var n := |keys|;
      var init := keys[..n - 1];
      assert forall i :: 0 <= i < n - 1 ==> init[i] == keys[i];
      UpdatedIdsDistinct(init, modsInfo, localMods, downloadNew);
      UpdatedIdsMembers(init, modsInfo, localMods, downloadNew);
      assert keys[n - 1] !in init;
    }
  }

  /**
   * `check_updates(ws_path, mods_info, download_new)` with the installed
   * mods given as `localMods`: visits `mods_info` in iteration order and
   * appends each id that needs an update.
   */
  method CheckUpdates(modsInfo: Dict<ModId, ModInfo>, localMods: map<ModId, int>, downloadNew: bool) returns (results: seq<ModId>)
    requires modsInfo.Valid()
    ensures results == UpdatedIds(modsInfo.keys, modsInfo.entries, localMods, downloadNew)
    ensures forall id :: id in results <==>
                           id in modsInfo.entries && CheckModUpdate(id, modsInfo.entries[id].timestamp, localMods, downloadNew)
    ensures IsSubsequence(results, modsInfo.keys)
    ensures Distinct(results)
  {
    results := [];
    var i := 0;
    while i < |modsInfo.keys|
      invariant 0 <= i <= |modsInfo.keys|
      invariant results == UpdatedIds(modsInfo.keys[..i], modsInfo.entries, localMods, downloadNew)
    {
      var itemId := modsInfo.keys[i];
      assert modsInfo.keys[..i + 1][..i] == modsInfo.keys[..i];
      if CheckModUpdate(itemId, modsInfo.entries[itemId].timestamp, localMods, downloadNew) {
        results := results + [itemId];
      }
      i := i + 1;
    }
    assert modsInfo.keys[..i] == modsInfo.keys;
    UpdatedIdsMembers(modsInfo.keys, modsInfo.entries, localMods, downloadNew);
    UpdatedIdsInOrder(modsInfo.keys, modsInfo.entries, localMods, downloadNew);
    UpdatedIdsDistinct(modsInfo.keys, modsInfo.entries, localMods, downloadNew);
  }
}
