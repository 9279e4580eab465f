# Slackr archiver: verified model of its decision procedures

The Slackr archiver keeps a chat workspace tidy in two phases that share a
ledger file of channels (`slackr_channels.db`: name, id, last-active date).

- **Recon** (`recon_slackr.rb`) lists the workspace's channels, skips the
  archived ones, and looks at each channel's latest messages. A message is
  activity unless its username or subtype is blacklisted or it is more than
  48 hours old. The channel's new last-active date is the first such message
  (the workspace returns messages newest first); failing that, the date of the
  first previous ledger row with the same id is carried forward; failing that,
  the date is "now". Each channel is counted active, idle or new, and the
  ledger is rewritten with one row per non-archived listed channel.
- **Archiver** (`archiver_slackr.rb`) reads the ledger and the whitelist
  file. For each row it counts days inactive as a difference of calendar-day
  numbers (Modified Julian Day). A whitelisted channel stays active. Otherwise
  60 or more days puts it on the archive list, and anything less keeps it
  active, also putting it on the notify list from 30 days on. Then the run
  mode decides what happens. DRY does nothing. NOTIFY posts a warning to each
  notify channel. ACTIVE archives each to-archive channel, posts a closing
  message and appends a line to the audit file.

The model (Dafny, one module per file):

- `ledger.dfy`, module `Ledger`: the shared ledger row and `Option` (Ruby's nil).
- `recon.dfy`, module `Recon`: the message filter, the prior-row lookup, the
  per-channel decision and the recon loop. The loops are methods proved
  against recursive specification functions.
- `calendar.dfy`, module `Calendar`: day numbers and days inactive.
- `classification.dfy`, module `Classification`: loading the whitelist, the
  per-row verdict, and the classification loop.
- `actions.dfy`, module `Actions`: mode dispatch. Side effects go into an
  ordered trace (`Environment.log`). The workspace refuses the remote calls in
  `Environment.rejected`, and a refused call ends the run, as an exception does
  in the source.
- `archiver.dfy`, module `Archiver`: one archiver run, from whitelist file and
  ledger to effects and printed totals.
- `lifecycle.dfy`, module `Lifecycle`: properties that span both phases, and
  the worked scenarios.

Time is in whole seconds since the epoch. A message's timestamp is held in
microseconds and truncated to seconds, as `msg_date.to_i` does. The clock
(`now`), the zone offset and the run date are parameters.

Points where the code does something other than what its comments, usage
text or names suggest, and which the model follows:
- The new last-active date is the first kept message (recon_slackr.rb:94),
  not a maximum; the comment at line 93 relies on the workspace returning
  messages newest first. `FirstKeptIsNewest` shows the first kept date is
  the latest one under that ordering.
- The 48-hour test at recon_slackr.rb:81 has only a lower bound, so a
  message stamped after `now` counts as recent.
- The ledger is rewritten from the channels processed in this run
  (recon_slackr.rb:120): rows of channels no longer listed, or now archived,
  are dropped (`LedgerMatchesListing`).
- The usage text at archiver_slackr.rb:35 offers `--archive`, but line 41
  recognises only `-a`, `--live` and `--active`. `--archive`, like any other
  flag not handled at lines 28-51, leaves the mode nil, and the run goes on
  without acting (`RunMode.Unrecognized`).
- The whitelist is `flatten` followed by `shift` (archiver_slackr.rb:72-73):
  the first field of the file is dropped as the header, not its first row.

## Model

| member | source | states |
|---|---|---|
| `Recon.Kept` | recon_slackr.rb:79-83 | the per-message filter; its meaning over a history is stated by `KeptDatesSpec` |
| `Recon.KeptDatesSpec` | recon_slackr.rb:72-86 | a date is kept iff some message that passes the username, subtype and 48-hour lower-bound tests carries it; none kept iff every message fails; the head is the first passing message in history order |
| `Recon.FirstKeptIsNewest` | recon_slackr.rb:93-94 | with a newest-first history, the first kept date is the largest kept date |
| `Recon.RecentMessageDates` | recon_slackr.rb:69-86 | the inner loop collects exactly the kept dates, in history order |
| `Recon.FirstMatch` | recon_slackr.rb:99-101 | the index returned is the first previous row whose id equals the channel id; none is returned iff no row has that id |
| `Recon.PriorDate` | recon_slackr.rb:99-104 | the carried date is exactly the date of the first row with the channel's id (none when that row's date is blank); it is absent when no row has the id |
| `Recon.Reconcile` | recon_slackr.rb:88-117 | the per-channel decision; what each of its three outcomes means is stated by `ReconcileCases` |
| `Recon.ReconcileCases` | recon_slackr.rb:88-117 | active iff some message is kept, and the date is then the first kept message's; idle iff none kept and a previous date exists, which is carried unchanged; new iff none kept and no previous date, with date `now` |
| `Recon.NoHistoryMatchesNothing` | recon_slackr.rb:47 | the stand-in row used without a ledger file matches no channel id |
| `Recon.NoHistoryNeverIdle` | recon_slackr.rb:107-116 | without a ledger file no channel is idle; active and new counts sum to the channel count |
| `Recon.NonArchived` | recon_slackr.rb:61 | a channel is selected iff it is listed and not archived; the selection is no longer than the listing |
| `Recon.LivePositionsOrdered` | recon_slackr.rb:61 | the positions the selection takes lie within the listing, strictly increase, and are exactly those of non-archived channels |
| `Recon.NonArchivedIsStableFilter` | recon_slackr.rb:61 | the selection is the listing filtered in order: entry k is the channel at taken position k, so each non-archived channel appears exactly once, in listing order |
| `Recon.LedgerRows` | recon_slackr.rb:120 | the rows pushed to the new ledger; stated by `LedgerRowsFaithful` and `LedgerMatchesListing` |
| `Recon.Tagged` | recon_slackr.rb:88-117 | the active, idle and new name lists (pushed at lines 90, 110, 114); stated by `TaggedAt`, `TagPositionsOrdered` and `TagCountsSum` |
| `Recon.LedgerRowsFaithful` | recon_slackr.rb:120 | one ledger row per processed channel, in processing order, with that channel's name, id and reconciled date |
| `Recon.TagPositionsOrdered` | recon_slackr.rb:88-117 | the positions a tag list takes lie among the processed channels, strictly increase, and position i is taken iff channel i's outcome carries that tag |
| `Recon.TaggedAt` | recon_slackr.rb:88-117 | entry k of the active, idle or new list is the name of the channel at that list's k-th position, so each list is the processed channels filtered by outcome, in order |
| `Recon.TagCountsSum` | recon_slackr.rb:88-117 | the three counts sum to the number of channels (with `TagPositionsOrdered`, each channel is on exactly one list) |
| `Recon.LedgerMatchesListing` | recon_slackr.rb:61-120 | the new ledger has one row per non-archived listed channel, in listing order, holding that channel's name, id and reconciled date, and nothing else; previous rows of unlisted channels are dropped |
| `Recon.ProcessChannel` | recon_slackr.rb:66-117 | one channel's body of the outer loop returns exactly the reconciled date and tag |
| `Recon.Run` | recon_slackr.rb:65-124 | the outer loop returns exactly the specified ledger rows and active, idle and new name lists |
| `Calendar.Mjd` | archiver_slackr.rb:106 | the day number is the one whose 24-hour local day contains the instant |
| `Calendar.DaysInactive` | archiver_slackr.rb:106 | difference of the two day numbers; bounded by `DaysInactiveBounds` and `MidnightCounts` |
| `Calendar.MjdMonotone` | archiver_slackr.rb:106 | day numbers never decrease as time goes on |
| `Calendar.DaysInactiveBounds` | archiver_slackr.rb:106 | for a past date, days inactive is between the whole 24-hour periods elapsed and one more |
| `Calendar.MidnightCounts` | archiver_slackr.rb:106 | 23:59 to 00:01 across local midnight is 1 day; 00:00 to 23:59:59 of one date is 0 |
| `Classification.LoadWhitelist` | archiver_slackr.rb:72-73 | flatten the file and drop its first field; stated by `LoadWhitelistSkipsHeader` and `FlattenMembers` |
| `Classification.LoadWhitelistSkipsHeader` | archiver_slackr.rb:72-73 | with a one-field header row, the whitelist is exactly the fields of the later rows, and a name is whitelisted iff some field equals it |
| `Classification.FlattenMembers` | archiver_slackr.rb:72 | a field is in the flattened file iff it is in some row |
| `Classification.CreatedWhitelistIsEmpty` | archiver_slackr.rb:76 | the whitelist file the archiver creates whitelists nothing |
| `Classification.Classify` | archiver_slackr.rb:109-117 | the per-row decision; stated by `WhitelistOverride`, `ThresholdLaws` and `ArchiveMonotone` |
| `Classification.WhitelistOverride` | archiver_slackr.rb:109 | a whitelisted channel is kept without a warning, whatever its days inactive |
| `Classification.ThresholdLaws` | archiver_slackr.rb:110-115 | not whitelisted: archived iff days >= 60; warned iff 30 <= days < 60 |
| `Classification.ArchiveMonotone` | archiver_slackr.rb:110 | if d days archives, any d' >= d archives too |
| `Classification.Bucketed` | archiver_slackr.rb:102-122 | the three lists built by the pass; stated by `BucketIsStableFilter`, `RowPlacement` and `ActiveArchivePartition` |
| `Classification.BucketIsStableFilter` | archiver_slackr.rb:102-122 | each list is the ledger filtered by its bucket, in ledger order: entries come from strictly increasing positions, and a position is taken iff its row belongs |
| `Classification.ActiveArchivePartition` | archiver_slackr.rb:102-122 | active count + to-archive count = number of ledger rows |
| `Classification.NotifyWithinActive` | archiver_slackr.rb:113-115 | a row on the notify list is on the active list; a row is on the active list iff it is not on the archive list |
| `Classification.RowPlacement` | archiver_slackr.rb:109-121 | row i is on the archive list iff not whitelisted and >= 60 days; on the notify list iff not whitelisted and 30-59 days; on the active list iff whitelisted or < 60 days |
| `Classification.ClassifyLedger` | archiver_slackr.rb:102-122 | the loop returns exactly the specified active, to-archive and notify lists |
| `Actions.Steps` | archiver_slackr.rb:133-166 | the effects for one channel in each mode; stated by `ActivePlanShape`, `NotifyPlanShape` and `ModeLaws` |
| `Actions.Plan` | archiver_slackr.rb:133-166 | the effects the mode calls for; stated by `ActivePlanShape`, `NotifyPlanShape` and `ModeLaws` |
| `Actions.Performed` | archiver_slackr.rb:134-163 | the effects carried out before the first refused call; stated by `PerformedIsPrefix` and `PerformedConcat` |
| `Actions.PerformedIsPrefix` | archiver_slackr.rb:134-147 | what is done is a prefix of what the mode calls for, none of whose calls was refused; it is all of it iff no call is refused; otherwise it stops right before a refused call, so at the first one |
| `Actions.PerformedConcat` | archiver_slackr.rb:134-147 | the later part of a run is reached only if all of the earlier part succeeds |
| `Actions.ExpandSplit` | archiver_slackr.rb:134 | walking a list is walking its two halves one after the other |
| `Actions.ActivePlanShape` | archiver_slackr.rb:134-147 | ACTIVE: per to-archive channel, in list order, exactly archive, closing post, audit line, and nothing else |
| `Actions.NotifyPlanShape` | archiver_slackr.rb:153-163 | NOTIFY: exactly one warning post per notify channel, in list order, and nothing else |
| `Actions.ModeLaws` | archiver_slackr.rb:133-166 | DRY and an unrecognised mode do nothing; only ACTIVE archives or audits; only NOTIFY posts the warning |
| `Actions.EffectsOfWalk` | archiver_slackr.rb:134-163 | every effect of a walk is one of the per-channel steps of a channel on the walked list |
| `Actions.AuditInShapedPrefix` | archiver_slackr.rb:137-144 | in any prefix of an archive-post-audit plan, an audit line at position p has its channel's archive call at p-2 and closing post at p-1 |
| `Actions.AuditFollowsArchive` | archiver_slackr.rb:137-144 | every audit line written is for a channel whose archive and closing post succeeded just before it |
| `Actions.WalkStopsAt` | archiver_slackr.rb:134-147 | a refused call in channel i's steps ends the run with the earlier channels' effects and the part of i's that went through |
| `Actions.WalkExtends` | archiver_slackr.rb:134-147 | when channel i's steps all go through, the run has done the first i+1 channels' effects |
| `Actions.Environment.constructor` | archiver_slackr.rb:96 | a fresh environment has done nothing |
| `Actions.Environment.ArchiveChannel` | archiver_slackr.rb:137 | the archive call is logged iff the workspace accepts it |
| `Actions.Environment.PostMessage` | archiver_slackr.rb:138-141 | the post is logged iff the workspace accepts it |
| `Actions.Environment.AppendAudit` | archiver_slackr.rb:144 | the audit line is appended |
| `Actions.ArchiveOne` | archiver_slackr.rb:135-146 | one channel: the log grows by the accepted prefix of archive, post, audit |
| `Actions.ArchiveChannels` | archiver_slackr.rb:134-147 | the log grows by the accepted prefix of the ACTIVE plan; success iff nothing was refused |
| `Actions.NotifyChannels` | archiver_slackr.rb:153-163 | the log grows by the accepted prefix of the NOTIFY plan; success iff nothing was refused |
| `Actions.Execute` | archiver_slackr.rb:133-166 | the log grows by the accepted prefix of the mode's plan; success iff nothing was refused |
| `Archiver.Names` | archiver_slackr.rb:169-170 | the name list has one entry per channel, its name, in order |
| `Archiver.ReportFor` | archiver_slackr.rb:175-179 | the active total is always printed; the to-archive names (and their count) only in ACTIVE and DRY; the notify names (and their count) only in NOTIFY and DRY; each printed list is the channel names in order |
| `Archiver.Run` | archiver_slackr.rb:102-179 | missing whitelist with a non-empty ledger aborts before any effect; otherwise the effects are the accepted prefix of the plan for the classified lists, and a completed run prints the mode's report of the classified lists |
| `Lifecycle.WholeDaysBack` | archiver_slackr.rb:106 | n whole days back is n days inactive |
| `Lifecycle.NewChannelGrace` | recon_slackr.rb:107-111 | a new channel's row is kept by an archiver run fewer than 60 days later, and not warned before 30 days |
| `Lifecycle.TwoFreshMessages` | recon_slackr.rb:88-94 | two fresh messages, newest first, no ledger: the newer message's time is recorded and the channel is active |
| `Lifecycle.ThresholdScenarios` | archiver_slackr.rb:106-121 | 45 days: kept and warned; 61 days: archived; whitelisted at 400 days: kept |

## Left out

- The workspace client: listing, history fetch, archive and post calls. The
  listing and each channel's history are inputs (`Recon.Channel`). Archive and
  post calls are `Environment` methods whose only observable result is the
  logged effect or a refusal.
- The history fetch's message count (`channel_count = 3`): the history is
  taken as given.
- CSV reading and writing, the `.db` / `.db.last` rename and backup, and the
  creation of the whitelist and audit files. The reader's field conversions are
  not modelled either (an all-digit channel name read as a number would not
  match the whitelist). A ledger file that does not exist makes the archiver
  stop before anything else; that check is not modelled.
- The crash when no channel is processed, because the workspace lists none or
  all of them are archived (`channels.first.keys` on an empty list while
  writing the ledger, recon_slackr.rb:129). `Recon.Run` returns an empty ledger
  instead.
- Logging and console output, other than the archiver's end-of-run totals and
  name lists (`Archiver.Report`) and the recon totals, which are the lengths
  of `Recon.Run`'s lists. The closing lines of text are left out.
- Command-line parsing and the yes/no confirmation: the mode is an input.
- `sleep` between calls: timing only.
- Time parsing and zones. `Time.parse`, `to_datetime` and `to_date.mjd` become
  integer seconds and one zone offset for both dates of a difference. A ledger
  date parsed with an offset of its own is not modelled.
- The clock is read once per phase (`now`). The source reads `Time.now` again
  for every message and every ledger row, and keeps sub-second precision.
- Audit line formatting: `Audited` carries the channel name and the run date,
  not the formatted text.
- The missing-token startup failure; failures of local file appends.
