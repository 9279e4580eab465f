/** One archiver run (archiver_slackr.rb) from the loaded ledger and
    whitelist file to the effects on the workspace and the totals it
    reports. */
module Archiver {
  import opened Ledger
  import opened Classification
  import opened Actions

  /** What the run prints at the end: the active total always; the
      to-archive total and names only in ACTIVE and DRY mode; the notify
      total and names only in NOTIFY and DRY mode (absent otherwise). Each
      printed total is the length of the printed name list. */
  datatype Report = Report(activeCount: nat, toArchive: Option<seq<string>>, notified: Option<seq<string>>)

  datatype RunOutcome =
    | Completed(report: Report)
    /** A remote call was refused; the run stopped there. */
    | Aborted
    /** No whitelist was loaded, so the first ledger row's membership test
        raised before any remote call. */
    | WhitelistMissing

  /** `map { |x| x[:channel_name] }`. */
  function Names(cs: seq<ChannelRef>): (names: seq<string>)
    ensures |names| == |cs|
    ensures forall k :: 0 <= k < |cs| ==> names[k] == cs[k].name
  {
    if cs == [] then [] else [cs[0].name] + Names(cs[1..])
  }

  /** The end-of-run report for `mode` from the three classified lists. */
  function ReportFor(mode: RunMode, active: seq<ChannelRef>, toArchive: seq<ChannelRef>, notify: seq<ChannelRef>): (r: Report)
    ensures r.activeCount == |active|
    ensures r.toArchive.Some? <==> mode == Active || mode == Dry
    ensures r.notified.Some? <==> mode == Notify || mode == Dry
    ensures r.toArchive.Some? ==>
      && |r.toArchive.value| == |toArchive|
      && forall k :: 0 <= k < |toArchive| ==> r.toArchive.value[k] == toArchive[k].name
    ensures r.notified.Some? ==>
      && |r.notified.value| == |notify|
      && forall k :: 0 <= k < |notify| ==> r.notified.value[k] == notify[k].name
  {
    Report(|active|,
           if mode == Active || mode == Dry then Some(Names(toArchive)) else None,
           if mode == Notify || mode == Dry then Some(Names(notify)) else None)
  }

  /** The whitelist the pass consults: the loaded file, or nothing when the
      file had to be created during this run (then only an empty ledger gets
      through the pass). */
  function WhitelistOf(file: Option<seq<seq<Cell>>>): seq<Cell>
  {
    match file
    case Some(rows) => LoadWhitelist(rows)
    case None => []
  }

  /** The run: classify every ledger row, then act as the mode says. */
  method Run(mode: RunMode, ledger: seq<ChannelRow>, whitelistFile: Option<seq<seq<Cell>>>,
             now: Instant, utcOffset: int, runDate: Instant, env: Environment)
    returns (outcome: RunOutcome)
    modifies env
    ensures outcome == WhitelistMissing <==> whitelistFile.None? && ledger != []
    ensures outcome == WhitelistMissing ==> env.log == old(env.log)
    ensures outcome != WhitelistMissing ==>
      var whitelist := WhitelistOf(whitelistFile);
      var plan := Plan(mode, Bucketed(ledger, whitelist, now, utcOffset, ArchiveList),
                       Bucketed(ledger, whitelist, now, utcOffset, NotifyList), runDate);
      && env.log == old(env.log) + Performed(plan, env.rejected)
      && (outcome == Aborted <==> Performed(plan, env.rejected) != plan)
      && (outcome.Completed? ==> outcome.report == ReportFor(mode,
            Bucketed(ledger, whitelist, now, utcOffset, ActiveList),
            Bucketed(ledger, whitelist, now, utcOffset, ArchiveList),
            Bucketed(ledger, whitelist, now, utcOffset, NotifyList)))
  {
    if whitelistFile.None? && ledger != [] {
      return WhitelistMissing;
    }
    var whitelist := WhitelistOf(whitelistFile);
    var activeChannels, channelsToArchive, notifyChannels := ClassifyLedger(ledger, whitelist, now, utcOffset);
    var ok := Execute(mode, channelsToArchive, notifyChannels, runDate, env);
    if !ok {
      return Aborted;
    }
    outcome := Completed(ReportFor(mode, activeChannels, channelsToArchive, notifyChannels));
  }
}
