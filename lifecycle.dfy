/** Properties that span both phases: a ledger row written by recon, read
    back by the archiver. */
module Lifecycle {
  import opened Ledger
  import opened Calendar
  import opened Recon
  import opened Classification

  /** Going back a whole number of days from any instant is that many days
      inactive. */
  lemma WholeDaysBack(now: Instant, n: int, utcOffset: int)
    ensures DaysInactive(now, now - n * SecondsPerDay, utcOffset) == n
  {
  }

  /** A channel seen for the first time gets the recon's `now`, so an
      archiver run fewer than 60 calendar days later keeps it, and one fewer
      than 30 days later does not warn it either. */
  lemma NewChannelGrace(ch: Channel, prior: seq<PriorRow>, reconNow: Instant,
                        whitelist: seq<Cell>, archiverNow: Instant, utcOffset: int)
    requires Reconcile(ch, prior, reconNow).tag == New
    requires DaysInactive(archiverNow, reconNow, utcOffset) < ArchiveThreshold
    ensures VerdictOf(ChannelRow(ch.name, ch.id, Reconcile(ch, prior, reconNow).lastActive), whitelist, archiverNow, utcOffset).Keep?
    ensures DaysInactive(archiverNow, reconNow, utcOffset) < NotifyThreshold ==>
      VerdictOf(ChannelRow(ch.name, ch.id, Reconcile(ch, prior, reconNow).lastActive), whitelist, archiverNow, utcOffset)
        == Keep(false)
  {
  }

  /** Two fresh messages in a brand-new channel, newest first: the ledger
      gets the newer one's second, not `now`. */
  lemma TwoFreshMessages(id: string, newer: Message, older: Message, now: Instant)
    requires Kept(newer, now) && Kept(older, now) && Seconds(older) <= Seconds(newer)
    ensures Reconcile(Channel(id, "general", false, [newer, older]), NoHistory, now) == Outcome(Active, Seconds(newer))
  {
    var h := [newer, older];
    assert h[..1] == [newer] && [newer][..0] == [];
    assert KeptDates([newer], now) == [Seconds(newer)];
    assert KeptDates(h, now) == [Seconds(newer), Seconds(older)];
  }

  /** The worked cases: 45 days idle is kept and warned, 61 days is
      archived, and a whitelisted channel idle for 400 days is kept. */
  lemma ThresholdScenarios(now: Instant, utcOffset: int, id: string)
    ensures VerdictOf(ChannelRow("proj-x", id, now - 45 * SecondsPerDay), [], now, utcOffset) == Keep(true)
    ensures VerdictOf(ChannelRow("proj-x", id, now - 61 * SecondsPerDay), [], now, utcOffset) == Archive
    ensures VerdictOf(ChannelRow("core-team", id, now - 400 * SecondsPerDay), [Some("core-team")], now, utcOffset) == Keep(false)
  {
  }
}
