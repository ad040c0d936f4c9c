/**
 * The body of `main` in the current tool, after the arguments are parsed:
 * fetch, load the de-duplication lists, decide which mods need an update,
 * notify each channel unless every updated id is already in the list it was
 * last sent, persist the new
 * state and choose the exit code. The HTTP answer, the installed mods, the
 * previous state file and the outcome of each send are parameters.
 */
module Checker {
  import opened Wrappers
  import opened PyDict
  import opened Text
  import opened WorkshopApi
  import opened WorkshopFetch
  import opened Reconciler

  const ExitOk := 0
  /** Python's status for an exception nobody catches. */
  const ExitUncaught := 1
  /** argparse's status for a usage error. */
  const ExitUsage := 2
  const ExitFetchFailed := 3
  const ExitUpdatesFound := 4

  /** The command-line switches that steer the decision. */
  datatype Options = Options(checkUpdates: bool, onlyExisting: bool, notify: bool, sendMail: bool, notifyDiscord: bool)

  /** The keys of a previous state file that `main` reads: each may be absent. */
  datatype StateFile = StateFile(lastMailed: Option<seq<ModId>>, lastDiscord: Option<seq<ModId>>)

  /** The JSON record written at the end of a run. */
  datatype PersistedState = PersistedState(modsInfo: Dict<ModId, ModInfo>, lastMailed: seq<ModId>, lastDiscord: seq<ModId>)

  datatype Notification = Mail(text: string) | Discord(text: string)

  /** Whether `send_mail(...)` and `webhook.execute()` return; otherwise they raise. */
  datatype Sinks = Sinks(mailReturns: bool, discordReturns: bool)

  /** The process exit status, the state file written (if any) and the messages whose send call returned. */
  datatype Outcome = Outcome(exitCode: int, written: Option<PersistedState>, sent: seq<Notification>)

  /** `data.get(key, [])` on the loaded file, `data` being `{}` when there is no file. */
  function LoadedList(loaded: Option<StateFile>, mail: bool): (ids: seq<ModId>)
    ensures loaded.None? ==> ids == []
  {
    match loaded
    case None => []
    case Some(file) =>
      var field := if mail then file.lastMailed else file.lastDiscord;
      if field.Some? then field.value else []
  }

  /** What loading a file written with `state` gives back. */
  function Reload(state: PersistedState): StateFile {
    StateFile(Some(state.lastMailed), Some(state.lastDiscord))
  }

  /** `any(elem not in last for elem in updated)` */
  function NeedsNotify(updated: seq<ModId>, last: seq<ModId>): (needs: bool)
    ensures needs <==> exists i :: 0 <= i < |updated| && updated[i] !in last
    decreases |updated|
  {
    if updated == [] then false
    else if updated[0] !in last then true
    else
      var rest := NeedsNotify(updated[1..], last);
      assert forall i :: 1 <= i < |updated| ==> updated[i] == updated[1..][i - 1];
      rest
  }

  /** The `"id - name"` lines of the digest. */
  function CombinedLines(updated: seq<ModId>, modsInfo: map<ModId, ModInfo>): (lines: seq<string>)
    requires forall id :: id in updated ==> id in modsInfo
    ensures |lines| == |updated|
    ensures forall i :: 0 <= i < |updated| ==> lines[i] == updated[i] + " - " + modsInfo[updated[i]].name
  {
    seq(|updated|, i requires 0 <= i < |updated| => updated[i] + " - " + modsInfo[updated[i]].name)
  }

  /** `mod{1} need{2}`: the noun takes the plural ending unless there is one mod, the verb only then. */
  function Agreement(count: nat): (phrase: string)
    ensures count == 1 ==> phrase == " mod needs"
    ensures count != 1 ==> phrase == " mods need"
  {
    " mod" + (if count != 1 then "s" else "") + " need" + (if count == 1 then "s" else "")
  }

  /** The opening of the digest for `count` mods, up to the first line. */
  function Headline(count: nat): string {
    "Yo, at least " + Decimal(count) + Agreement(count) + " an update:\n  "
  }

  /** The notification text: a headline with the count, then one indented line per mod. */
  function Digest(count: nat, lines: seq<string>): (text: string)
    ensures Headline(count) <= text
    ensures text[|text| - 1] == '\n'
  {
    Headline(count) + Join("\n  ", lines) + "\n"
  }

  /** The headline for one mod. */
  lemma HeadlineOfOne()
    ensures Headline(1) == "Yo, at least 1 mod needs an update:\n  "
  {
    assert DigitChar(1) == '1';
    assert Decimal(1) == ['1'];
    assert Agreement(1) == " mod needs";
  }

  /** A text that opens with the headline for `count` reads "1 mod needs" there only if `count` is 1. */
  lemma SingularOnlyForOne(count: nat, text: string)
    requires Headline(count) <= text
    requires "Yo, at least 1 mod needs an update" <= text
    ensures count == 1
  {
    var digits := Decimal(count);
    var head := "Yo, at least " + digits;
    assert head <= text by {
      assert Headline(count) == head + (Agreement(count) + " an update:\n  ");
    }
    assert forall i :: 0 <= i < |digits| ==> text[13 + i] == digits[i];
    assert text[13] == '1' && text[14] == ' ';
    assert |digits| == 1;
    assert digits == "1" == Decimal(1);
    DecimalInjective(count, 1);
  }

  /** Every line handed to the digest appears in its text. */
  lemma DigestListsEveryLine(count: nat, lines: seq<string>, i: nat)
    requires i < |lines|
    ensures exists k :: InfixAt(Digest(count, lines), lines[i], k)
  {
    var head, joined := Headline(count), Join("\n  ", lines);
    var j := JoinHasPart("\n  ", lines, i);
    var k := |head| + j;
    assert Digest(count, lines)[k..k + |lines[i]|] == joined[j..j + |lines[i]|];
    assert InfixAt(Digest(count, lines), lines[i], k);
  }

  /** The digest of the updated mods names each of them as `"id - name"`. */
  lemma DigestNamesEveryMod(updated: seq<ModId>, modsInfo: map<ModId, ModInfo>, i: nat)
    requires forall id :: id in updated ==> id in modsInfo
    requires i < |updated|
    ensures exists k :: InfixAt(Digest(|updated|, CombinedLines(updated, modsInfo)),
                                updated[i] + " - " + modsInfo[updated[i]].name, k)
  {
    DigestListsEveryLine(|updated|, CombinedLines(updated, modsInfo), i);
  }

  /** The digest's headline reads "1 mod needs" exactly when there is one mod. */
  lemma DigestSingularIffOne(count: nat, lines: seq<string>)
    ensures "Yo, at least 1 mod needs an update" <= Digest(count, lines) <==> count == 1
  {
    HeadlineOfOne();
    if "Yo, at least 1 mod needs an update" <= Digest(count, lines) {
      SingularOnlyForOne(count, Digest(count, lines));
    }
  }

  /** A channel gets a message when it is enabled and some updated id is not in its list. */
  predicate Due(updated: seq<ModId>, enabled: bool, last: seq<ModId>) {
    |updated| > 0 && enabled && NeedsNotify(updated, last)
  }

  /** The result of the notification step: the lists to persist, what was sent, whether a send raised. */
  datatype Dispatch = Dispatch(lastMailed: seq<ModId>, lastDiscord: seq<ModId>, sent: seq<Notification>, raised: bool)

  /** Step 4 of `main`: mail first, then Discord; each list is replaced by the updated ids once its send returns. */
  function Notify(updated: seq<ModId>, text: string, opts: Options, lastMailed: seq<ModId>, lastDiscord: seq<ModId>, sinks: Sinks): Dispatch {
    var mailing := Due(updated, opts.notify && opts.sendMail, lastMailed);
    var posting := Due(updated, opts.notify && opts.notifyDiscord, lastDiscord);
    if mailing && !sinks.mailReturns then Dispatch(lastMailed, lastDiscord, [], true)
    else
      var mailed := if mailing then updated else lastMailed;
      var mailSent := if mailing then [Mail(text)] else [];
      if posting && !sinks.discordReturns then Dispatch(mailed, lastDiscord, mailSent, true)
      else Dispatch(mailed, if posting then updated else lastDiscord, mailSent + (if posting then [Discord(text)] else []), false)
  }

  /** The ids found to need an update, when the fetch succeeded and updates are checked. */
  function Found(modIds: seq<ModId>, opts: Options, response: Response, localMods: map<ModId, int>): seq<ModId>
    requires Validate(modIds, response).Ok?
  {
    var info := Validate(modIds, response).value;
    if opts.checkUpdates then UpdatedIds(info.keys, info.entries, localMods, !opts.onlyExisting) else []
  }

  /** The message that the run sends to every due channel. */
  function FoundDigest(modIds: seq<ModId>, opts: Options, response: Response, localMods: map<ModId, int>): string
    requires Validate(modIds, response).Ok?
  {
    var info := Validate(modIds, response).value;
    var found := Found(modIds, opts, response, localMods);
    UpdatedIdsMembers(info.keys, info.entries, localMods, !opts.onlyExisting);
    Digest(|found|, CombinedLines(found, info.entries))
  }

  /** One run of the checker: the exit code, the state file written and the messages sent. */
  function Run(modIds: seq<ModId>, opts: Options, response: Response, localMods: map<ModId, int>,
               loaded: Option<StateFile>, sinks: Sinks): Outcome
  {
    if |modIds| == 0 then Outcome(ExitUsage, None, [])
    else match Validate(modIds, response)
      case Err(_) => Outcome(ExitFetchFailed, None, [])
      case Ok(info) =>
        var found := Found(modIds, opts, response, localMods);
        var d := Notify(found, FoundDigest(modIds, opts, response, localMods), opts,
                        LoadedList(loaded, true), LoadedList(loaded, false), sinks);
        if d.raised then Outcome(ExitUncaught, None, d.sent)
        else
          Outcome(if |found| == 0 then ExitOk else ExitUpdatesFound,
                  Some(PersistedState(info, d.lastMailed, d.lastDiscord)), d.sent)
  }

  /**
   * What a run promises. The exit code is one of five; the state file is
   * written exactly when the run ends normally (exit 0 or 4); it then holds
   * the fetched mapping in full and, per channel, the updated ids if that
   * channel was due, or else the list loaded from the previous file (empty
   * when there was none).
   */
  lemma RunOutcome(modIds: seq<ModId>, opts: Options, response: Response, localMods: map<ModId, int>,
                   loaded: Option<StateFile>, sinks: Sinks)
    ensures var r := Run(modIds, opts, response, localMods, loaded, sinks);
            r.exitCode == ExitUsage <==> |modIds| == 0
    ensures var r := Run(modIds, opts, response, localMods, loaded, sinks);
            r.exitCode == ExitFetchFailed <==> |modIds| > 0 && Validate(modIds, response).Err?
    ensures var r := Run(modIds, opts, response, localMods, loaded, sinks);
            r.exitCode == ExitUncaught <==>
              && |modIds| > 0 && Validate(modIds, response).Ok?
              && var found := Found(modIds, opts, response, localMods);
                 || (Due(found, opts.notify && opts.sendMail, LoadedList(loaded, true)) && !sinks.mailReturns)
                 || (Due(found, opts.notify && opts.notifyDiscord, LoadedList(loaded, false)) && !sinks.discordReturns)
    ensures var r := Run(modIds, opts, response, localMods, loaded, sinks);
            r.exitCode in {ExitOk, ExitUncaught, ExitUsage, ExitFetchFailed, ExitUpdatesFound}
    ensures var r := Run(modIds, opts, response, localMods, loaded, sinks);
            |modIds| > 0 && Validate(modIds, response).Ok? && r.exitCode != ExitUncaught ==> r.written.Some?
    ensures var r := Run(modIds, opts, response, localMods, loaded, sinks);
            r.exitCode == ExitUsage || r.exitCode == ExitFetchFailed ==> r.sent == []
    ensures var r := Run(modIds, opts, response, localMods, loaded, sinks);
            r.exitCode == ExitUncaught ==>
              && |modIds| > 0 && Validate(modIds, response).Ok?
              && var found := Found(modIds, opts, response, localMods);
                 var mailDue := Due(found, opts.notify && opts.sendMail, LoadedList(loaded, true));
                 r.sent == (if mailDue && sinks.mailReturns then [Mail(FoundDigest(modIds, opts, response, localMods))] else [])
    ensures var r := Run(modIds, opts, response, localMods, loaded, sinks);
            r.written.Some? <==> r.exitCode == ExitOk || r.exitCode == ExitUpdatesFound
    ensures var r := Run(modIds, opts, response, localMods, loaded, sinks);
            r.exitCode == ExitUpdatesFound <==>
              r.written.Some? && |Found(modIds, opts, response, localMods)| > 0
    ensures var r := Run(modIds, opts, response, localMods, loaded, sinks);
            r.written.Some? ==>
              && r.written.value.modsInfo == Validate(modIds, response).value
              && var found := Found(modIds, opts, response, localMods);
                 var mailDue := Due(found, opts.notify && opts.sendMail, LoadedList(loaded, true));
                 var discordDue := Due(found, opts.notify && opts.notifyDiscord, LoadedList(loaded, false));
                 var text := FoundDigest(modIds, opts, response, localMods);
                 && r.written.value.lastMailed == (if mailDue then found else LoadedList(loaded, true))
                 && r.written.value.lastDiscord == (if discordDue then found else LoadedList(loaded, false))
                 && r.sent == (if mailDue then [Mail(text)] else []) + (if discordDue then [Discord(text)] else [])
  {
  }

  /**
   * Running again with the same ids, answer and installed mods on the state
   * a normal run wrote sends nothing and writes the same state. This is all
   * the de-duplication promises: it compares with the last list sent only,
   * so updates [A], then [B], then [A] mail A twice.
   */
  lemma RerunSendsNothing(modIds: seq<ModId>, opts: Options, response: Response, localMods: map<ModId, int>,
                          loaded: Option<StateFile>, sinks: Sinks, laterSinks: Sinks)
    requires Run(modIds, opts, response, localMods, loaded, sinks).written.Some?
    ensures var first := Run(modIds, opts, response, localMods, loaded, sinks);
            Run(modIds, opts, response, localMods, Some(Reload(first.written.value)), laterSinks)
              == Outcome(first.exitCode, first.written, [])
  {
    var found := Found(modIds, opts, response, localMods);
    var text := FoundDigest(modIds, opts, response, localMods);
    var d := Notify(found, text, opts, LoadedList(loaded, true), LoadedList(loaded, false), sinks);
    RunOnFetched(modIds, opts, response, localMods, loaded, sinks);
    var reloaded := Some(Reload(Run(modIds, opts, response, localMods, loaded, sinks).written.value));
    assert LoadedList(reloaded, true) == d.lastMailed && LoadedList(reloaded, false) == d.lastDiscord;
    NotifyAgainSendsNothing(found, text, opts, d, laterSinks);
    RunOnFetched(modIds, opts, response, localMods, reloaded, laterSinks);
  }

  /** A run whose fetch succeeded is its notification step followed by the write. */
  lemma RunOnFetched(modIds: seq<ModId>, opts: Options, response: Response, localMods: map<ModId, int>,
                     loaded: Option<StateFile>, sinks: Sinks)
    requires |modIds| > 0 && Validate(modIds, response).Ok?
    ensures var found := Found(modIds, opts, response, localMods);
            var d := Notify(found, FoundDigest(modIds, opts, response, localMods), opts,
                            LoadedList(loaded, true), LoadedList(loaded, false), sinks);
            Run(modIds, opts, response, localMods, loaded, sinks)
              == if d.raised then Outcome(ExitUncaught, None, d.sent)
                 else Outcome(if |found| == 0 then ExitOk else ExitUpdatesFound,
                              Some(PersistedState(Validate(modIds, response).value, d.lastMailed, d.lastDiscord)), d.sent)
  {
  }

  /** Notifying again with the lists a completed notification step left sends nothing. */
  lemma NotifyAgainSendsNothing(found: seq<ModId>, text: string, opts: Options, d: Dispatch, laterSinks: Sinks)
    requires d.lastMailed == found || !Due(found, opts.notify && opts.sendMail, d.lastMailed)
    requires d.lastDiscord == found || !Due(found, opts.notify && opts.notifyDiscord, d.lastDiscord)
    ensures Notify(found, text, opts, d.lastMailed, d.lastDiscord, laterSinks) == Dispatch(d.lastMailed, d.lastDiscord, [], false)
  {
    assert !NeedsNotify(found, found);
  }

  /**
   * With no state file and nothing to update, a checking run exits 0, sends
   * nothing and writes the fetched mapping with both lists empty.
   */
  lemma FreshStateWithoutUpdates(modIds: seq<ModId>, opts: Options, response: Response, localMods: map<ModId, int>, sinks: Sinks)
    requires |modIds| > 0 && Validate(modIds, response).Ok?
    requires opts.checkUpdates && Found(modIds, opts, response, localMods) == []
    ensures Run(modIds, opts, response, localMods, None, sinks)
              == Outcome(ExitOk, Some(PersistedState(Validate(modIds, response).value, [], [])), [])
  {
  }

  /** The answer for mods 100 and 200, both found, maps them in that order. */
  lemma TwoModsFetched()
    ensures Validate(["100", "200"], Response(2, ResultOk, [ResponseItem("100", ResultOk, "Alpha", 500),
                                                           ResponseItem("200", ResultOk, "Beta", 700)]))
              == Ok(Dict(["100", "200"], map["100" := ModInfo("Alpha", 500), "200" := ModInfo("Beta", 700)]))
  {
    var ids: seq<ModId> := ["100", "200"];
    var alpha, beta := ResponseItem("100", ResultOk, "Alpha", 500), ResponseItem("200", ResultOk, "Beta", 700);
    var details := [alpha, beta];
    assert details[..1] == [alpha] && [alpha][..0] == [];
    assert "100" in ids && "200" in ids;
    var one := Put(Empty(), "100", ModInfo("Alpha", 500));
    assert CollectDetails(ids, [alpha]) == Ok(one);
    var both := Put(one, "200", ModInfo("Beta", 700));
    assert CollectDetails(ids, details) == Ok(both);
    assert both.keys == ["100", "200"];
  }

  /**
   * Mod 100 is installed at its published time and mod 200 is not installed:
   * only 200 needs an update when new mods are downloaded, and none when
   * only existing mods are updated.
   */
  lemma NewModNeedsDownload()
    ensures var response := Response(2, ResultOk, [ResponseItem("100", ResultOk, "Alpha", 500),
                                                   ResponseItem("200", ResultOk, "Beta", 700)]);
            var local := map["100" := 500];
            && Found(["100", "200"], Options(true, false, false, true, true), response, local) == ["200"]
            && Found(["100", "200"], Options(true, true, false, true, true), response, local) == []
  {
    TwoModsFetched();
    var keys: seq<ModId> := ["100", "200"];
    var entries := map["100" := ModInfo("Alpha", 500), "200" := ModInfo("Beta", 700)];
    var local := map["100" := 500];
    assert keys[..1] == ["100"] && ["100"][..0] == [];
    assert UpdatedIds(["100"], entries, local, true) == [];
    assert UpdatedIds(["100"], entries, local, false) == [];
    assert UpdatedIds(keys, entries, local, true) == ["200"];
    assert UpdatedIds(keys, entries, local, false) == [];
  }

  /** The loop of `main` that builds `mods_combined`. */
  method CombineLines(updatedModIds: seq<ModId>, modsInfo: map<ModId, ModInfo>) returns (modsCombined: seq<string>)
    requires forall id :: id in updatedModIds ==> id in modsInfo
    ensures modsCombined == CombinedLines(updatedModIds, modsInfo)
  {
    modsCombined := [];
    var i := 0;
    while i < |updatedModIds|
      invariant 0 <= i <= |updatedModIds|
      invariant modsCombined == CombinedLines(updatedModIds[..i], modsInfo)
    {
      var modId := updatedModIds[i];
      modsCombined := modsCombined + [modId + " - " + modsInfo[modId].name];
      i := i + 1;
    }
    assert updatedModIds[..i] == updatedModIds;
  }

  /** Step 4 of `main` as written, with its reassignments of `last_mailed` and `last_discord`. */
  method NotifyAdmins(updatedModIds: seq<ModId>, modsCombined: seq<string>, opts: Options,
                      lastMailed: seq<ModId>, lastDiscord: seq<ModId>, sinks: Sinks) returns (d: Dispatch)
    ensures d == Notify(updatedModIds, Digest(|updatedModIds|, modsCombined), opts, lastMailed, lastDiscord, sinks)
  {
    d := Dispatch(lastMailed, lastDiscord, [], false);
    var updatedModCount := |updatedModIds|;
    if updatedModCount > 0 && opts.notify {
      var needsMail := NeedsNotify(updatedModIds, lastMailed);
      var needsDiscord := NeedsNotify(updatedModIds, lastDiscord);
      if needsMail || needsDiscord {
        var messageText := Digest(updatedModCount, modsCombined);
        if opts.sendMail && needsMail {
          if !sinks.mailReturns {
            return d.(raised := true);
          }
          d := d.(lastMailed := updatedModIds, sent := d.sent + [Mail(messageText)]);
        }
        if opts.notifyDiscord && needsDiscord {
          if !sinks.discordReturns {
            return d.(raised := true);
          }
          d := d.(lastDiscord := updatedModIds, sent := d.sent + [Discord(messageText)]);
        }
      }
    }
  }

  /** `main` as written, from the fetch to the state file. */
  method RunChecker(modIds: seq<ModId>, opts: Options, response: Response, localMods: map<ModId, int>,
                    loaded: Option<StateFile>, sinks: Sinks) returns (outcome: Outcome)
    ensures outcome == Run(modIds, opts, response, localMods, loaded, sinks)
  {
    if |modIds| == 0 {
      return Outcome(ExitUsage, None, []);
    }
    var _, fetched := FetchWorkshopPages(modIds, response);
    if fetched.Err? {
      return Outcome(ExitFetchFailed, None, []);
    }
    var modsInfo := fetched.value;
    var lastMailed := LoadedList(loaded, true);
    var lastDiscord := LoadedList(loaded, false);
    var sent: seq<Notification> := [];
    var exitCode;
    if opts.checkUpdates {
      var updatedModIds := CheckUpdates(modsInfo, localMods, !opts.onlyExisting);
      var modsCombined := CombineLines(updatedModIds, modsInfo.entries);
      var d := NotifyAdmins(updatedModIds, modsCombined, opts, lastMailed, lastDiscord, sinks);
      if d.raised {
        return Outcome(ExitUncaught, None, d.sent);
      }
      lastMailed, lastDiscord, sent := d.lastMailed, d.lastDiscord, d.sent;
      exitCode := if |updatedModIds| == 0 then ExitOk else ExitUpdatesFound;
    } else {
      exitCode := ExitOk;
    }
    outcome := Outcome(exitCode, Some(PersistedState(modsInfo, lastMailed, lastDiscord)), sent);
  }
}
