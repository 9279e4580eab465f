/** The archiver's classification pass (archiver_slackr.rb): loads the
    whitelist and sorts every ledger row into the active, notify and
    to-archive lists by its calendar days of inactivity. */
module Classification {
  import opened Ledger
  import opened Calendar

  /** Days inactive from which a channel is archived. */
  const ArchiveThreshold: int := 60

  /** Days inactive from which a channel that is kept is also warned. */
  const NotifyThreshold: int := 30

  /** A field of whitelist.txt as the CSV reader gives it; a blank field is nil. */
  type Cell = Option<string>

  /** What the three lists hold: `{channel_name:, channel_id:}`. */
  datatype ChannelRef = ChannelRef(name: string, id: string)

  /** The decision for one ledger row. */
  datatype Verdict = Archive | Keep(notify: bool)

  /** The three lists built by the pass. */
  datatype Bucket = ActiveList | NotifyList | ArchiveList

  function Flatten(rows: seq<seq<Cell>>): (cells: seq<Cell>)
  {
    if rows == [] then [] else rows[0] + Flatten(rows[1..])
  }

  /** `CSV.read(...).flatten` followed by `shift`: the first FIELD of the file
      is dropped as the header, whatever row it sits on. */
  function LoadWhitelist(rows: seq<seq<Cell>>): seq<Cell>
  {
    var cells := Flatten(rows);
    if cells == [] then [] else cells[1..]
  }

  /** Membership by exact name. */
  predicate Whitelisted(name: string, whitelist: seq<Cell>)
  {
    Some(name) in whitelist
  }

  /** Loading a file whose first row is the single header field yields
      exactly the fields of the remaining rows, in file order. */
  lemma {:induction false} LoadWhitelistSkipsHeader(header: string, rows: seq<seq<Cell>>)
    ensures LoadWhitelist([[Some(header)]] + rows) == Flatten(rows)
    ensures forall name :: Whitelisted(name, LoadWhitelist([[Some(header)]] + rows)) <==>
      exists i, j :: 0 <= i < |rows| && 0 <= j < |rows[i]| && rows[i][j] == Some(name)
  {
    var all := [[Some(header)]] + rows;
    assert all[1..] == rows;
    assert Flatten(all) == [Some(header)] + Flatten(rows);
    FlattenMembers(rows);
  }

  /** A field is in the flattened file exactly when it is in one of its rows. */
  lemma {:induction false} FlattenMembers(rows: seq<seq<Cell>>)
    ensures forall c :: c in Flatten(rows) <==> exists i, j :: 0 <= i < |rows| && 0 <= j < |rows[i]| && rows[i][j] == c
  {
    if rows != [] {
      FlattenMembers(rows[1..]);
      forall c | c in Flatten(rows)
        ensures exists i, j :: 0 <= i < |rows| && 0 <= j < |rows[i]| && rows[i][j] == c
      {
        if c in rows[0] {
          var j :| 0 <= j < |rows[0]| && rows[0][j] == c;
          assert rows[0][j] == c;
        } else {
          assert c in Flatten(rows[1..]);
          var i, j :| 0 <= i < |rows[1..]| && 0 <= j < |rows[1..][i]| && rows[1..][i][j] == c;
          assert rows[i + 1][j] == c;
        }
      }
      forall c | exists i, j :: 0 <= i < |rows| && 0 <= j < |rows[i]| && rows[i][j] == c
        ensures c in Flatten(rows)
      {
        var i, j :| 0 <= i < |rows| && 0 <= j < |rows[i]| && rows[i][j] == c;
        if i > 0 {
          assert rows[1..][i - 1][j] == c;
        }
      }
    }
  }

  /** The file the archiver creates when none exists whitelists nothing. */
  lemma CreatedWhitelistIsEmpty()
    ensures LoadWhitelist([[Some("channel_name")]]) == []
  {
  }

  /** The decision for one channel with `days` days inactive: whitelisted
      channels are always kept; otherwise 60 days or more archives; otherwise
      the channel is kept and warned from 30 days on. */
  function Classify(name: string, days: int, whitelist: seq<Cell>): Verdict
  {
    if Whitelisted(name, whitelist) then Keep(false)
    else if days >= ArchiveThreshold then Archive
    else Keep(days >= NotifyThreshold)
  }

  /** The whitelist overrides inactivity, however large. */
  lemma WhitelistOverride(name: string, days: int, whitelist: seq<Cell>)
    requires Whitelisted(name, whitelist)
    ensures Classify(name, days, whitelist) == Keep(false)
  {
  }

  /** The threshold laws: for a channel that is not whitelisted, archived iff
      60 days or more; warned iff kept and 30 days or more, so never both. */
  lemma ThresholdLaws(name: string, days: int, whitelist: seq<Cell>)
    requires !Whitelisted(name, whitelist)
    ensures Classify(name, days, whitelist) == Archive <==> days >= ArchiveThreshold
    ensures Classify(name, days, whitelist) == Keep(true) <==> NotifyThreshold <= days < ArchiveThreshold
  {
  }

  /** Archiving is monotone in days inactive. */
  lemma ArchiveMonotone(name: string, d: int, d': int, whitelist: seq<Cell>)
    requires d <= d' && Classify(name, d, whitelist) == Archive
    ensures Classify(name, d', whitelist) == Archive
  {
  }

  function Ref(row: ChannelRow): ChannelRef
  {
    ChannelRef(row.name, row.id)
  }

  /** The verdict for one ledger row, judged at `now`. */
  function VerdictOf(row: ChannelRow, whitelist: seq<Cell>, now: Instant, utcOffset: int): Verdict
  {
    Classify(row.name, DaysInactive(now, row.lastActive, utcOffset), whitelist)
  }

  /** Which list a verdict puts a row on: archived rows on the archive list,
      kept rows on the active list and, when warned, on the notify list too. */
  predicate InBucket(v: Verdict, b: Bucket)
  {
    match b
    case ActiveList => v.Keep?
    case NotifyList => v == Keep(true)
    case ArchiveList => v == Archive
  }

  /** The contents of list `b` after the pass over `ledger`. */
  function Bucketed(ledger: seq<ChannelRow>, whitelist: seq<Cell>, now: Instant, utcOffset: int, b: Bucket): seq<ChannelRef>
  {
    if ledger == [] then []
    else
      var row := ledger[|ledger| - 1];
      Bucketed(ledger[..|ledger| - 1], whitelist, now, utcOffset, b)
        + (if InBucket(VerdictOf(row, whitelist, now, utcOffset), b) then [Ref(row)] else [])
  }

  /** The ledger positions that list `b` takes its entries from. */
  function Positions(ledger: seq<ChannelRow>, whitelist: seq<Cell>, now: Instant, utcOffset: int, b: Bucket): seq<nat>
  {
    if ledger == [] then []
    else
      var n := |ledger| - 1;
      Positions(ledger[..n], whitelist, now, utcOffset, b)
        + (if InBucket(VerdictOf(ledger[n], whitelist, now, utcOffset), b) then [n] else [])
  }

  /** Each list is the stable filter of the ledger by its bucket: entry k
      comes from ledger position Positions[k], the positions strictly
      increase (input order is kept), and a position is taken exactly when
      its row belongs in the list. */
  lemma {:induction false} BucketIsStableFilter(ledger: seq<ChannelRow>, whitelist: seq<Cell>, now: Instant, utcOffset: int, b: Bucket)
    ensures |Bucketed(ledger, whitelist, now, utcOffset, b)| == |Positions(ledger, whitelist, now, utcOffset, b)|
    ensures forall k :: 0 <= k < |Positions(ledger, whitelist, now, utcOffset, b)| ==>
      && Positions(ledger, whitelist, now, utcOffset, b)[k] < |ledger|
      && Bucketed(ledger, whitelist, now, utcOffset, b)[k] == Ref(ledger[Positions(ledger, whitelist, now, utcOffset, b)[k]])
    ensures forall k, l :: 0 <= k < l < |Positions(ledger, whitelist, now, utcOffset, b)| ==>
      Positions(ledger, whitelist, now, utcOffset, b)[k] < Positions(ledger, whitelist, now, utcOffset, b)[l]
    ensures forall i :: 0 <= i < |ledger| ==>
      (i in Positions(ledger, whitelist, now, utcOffset, b) <==> InBucket(VerdictOf(ledger[i], whitelist, now, utcOffset), b))
  {
    if ledger != [] {
      var n := |ledger| - 1;
      var init := ledger[..n];
      BucketIsStableFilter(init, whitelist, now, utcOffset, b);
      assert forall i :: 0 <= i < n ==> init[i] == ledger[i];
      var ps := Positions(init, whitelist, now, utcOffset, b);
      assert forall k :: 0 <= k < |ps| ==> ps[k] < n;
    }
  }

  /** Every ledger row lands on exactly one of the active and the archive
      lists, so their lengths add up to the number of rows. */
  lemma {:induction false} ActiveArchivePartition(ledger: seq<ChannelRow>, whitelist: seq<Cell>, now: Instant, utcOffset: int)
    ensures |Bucketed(ledger, whitelist, now, utcOffset, ActiveList)| + |Bucketed(ledger, whitelist, now, utcOffset, ArchiveList)| == |ledger|
  {
    if ledger != [] {
      ActiveArchivePartition(ledger[..|ledger| - 1], whitelist, now, utcOffset);
    }
  }

  /** Row by row: a row is on the notify list only when it is on the active
      list, and never on both the active and the archive list. */
  lemma NotifyWithinActive(ledger: seq<ChannelRow>, whitelist: seq<Cell>, now: Instant, utcOffset: int, i: nat)
    requires i < |ledger|
    ensures i in Positions(ledger, whitelist, now, utcOffset, NotifyList) ==> i in Positions(ledger, whitelist, now, utcOffset, ActiveList)
    ensures i in Positions(ledger, whitelist, now, utcOffset, ActiveList) <==> i !in Positions(ledger, whitelist, now, utcOffset, ArchiveList)
  {
    BucketIsStableFilter(ledger, whitelist, now, utcOffset, NotifyList);
    BucketIsStableFilter(ledger, whitelist, now, utcOffset, ActiveList);
    BucketIsStableFilter(ledger, whitelist, now, utcOffset, ArchiveList);
  }

  /** Where row i ends up: on the archive list iff it is not whitelisted
      and 60 or more days inactive; on the notify list iff it is not
      whitelisted and 30 to 59 days inactive; on the active list otherwise.
      So a whitelisted row is only ever on the active list. */
  lemma RowPlacement(ledger: seq<ChannelRow>, whitelist: seq<Cell>, now: Instant, utcOffset: int, i: nat)
    requires i < |ledger|
    ensures i in Positions(ledger, whitelist, now, utcOffset, ArchiveList) <==>
      !Whitelisted(ledger[i].name, whitelist) && DaysInactive(now, ledger[i].lastActive, utcOffset) >= ArchiveThreshold
    ensures i in Positions(ledger, whitelist, now, utcOffset, NotifyList) <==>
      !Whitelisted(ledger[i].name, whitelist)
        && NotifyThreshold <= DaysInactive(now, ledger[i].lastActive, utcOffset) < ArchiveThreshold
    ensures i in Positions(ledger, whitelist, now, utcOffset, ActiveList) <==>
      Whitelisted(ledger[i].name, whitelist) || DaysInactive(now, ledger[i].lastActive, utcOffset) < ArchiveThreshold
  {
    BucketIsStableFilter(ledger, whitelist, now, utcOffset, NotifyList);
    BucketIsStableFilter(ledger, whitelist, now, utcOffset, ActiveList);
    BucketIsStableFilter(ledger, whitelist, now, utcOffset, ArchiveList);
  }

  /** The pass over the ledger: one forward loop that appends each row to
      the lists its verdict names. */
  method ClassifyLedger(ledger: seq<ChannelRow>, whitelist: seq<Cell>, now: Instant, utcOffset: int)
    returns (activeChannels: seq<ChannelRef>, channelsToArchive: seq<ChannelRef>, notifyChannels: seq<ChannelRef>)
    ensures activeChannels == Bucketed(ledger, whitelist, now, utcOffset, ActiveList)
    ensures channelsToArchive == Bucketed(ledger, whitelist, now, utcOffset, ArchiveList)
    ensures notifyChannels == Bucketed(ledger, whitelist, now, utcOffset, NotifyList)
  {
    activeChannels, channelsToArchive, notifyChannels := [], [], [];
    var i := 0;
    while i < |ledger|
      invariant 0 <= i <= |ledger|
      invariant activeChannels == Bucketed(ledger[..i], whitelist, now, utcOffset, ActiveList)
      invariant channelsToArchive == Bucketed(ledger[..i], whitelist, now, utcOffset, ArchiveList)
      invariant notifyChannels == Bucketed(ledger[..i], whitelist, now, utcOffset, NotifyList)
    {
      var row := ledger[i];
      var daysInactive := DaysInactive(now, row.lastActive, utcOffset);
      var channel := ChannelRef(row.name, row.id);
      if !Whitelisted(row.name, whitelist) {
        if daysInactive >= ArchiveThreshold {
          channelsToArchive := channelsToArchive + [channel];
        } else {
          activeChannels := activeChannels + [channel];
          if daysInactive >= NotifyThreshold {
            notifyChannels := notifyChannels + [channel];
          }
        }
      } else {
        activeChannels := activeChannels + [channel];
      }
      assert ledger[..i + 1][..i] == ledger[..i];
      i := i + 1;
    }
    assert ledger[..i] == ledger;
  }
}
