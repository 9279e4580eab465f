/** The recon phase (recon_slackr.rb): for every non-archived channel it looks
    at the latest messages, decides the channel's new "last active" instant
    from them and from the previous ledger, tags the channel active, idle or
    new, and produces the rows of the new ledger. */
module Recon {
  import opened Ledger

  /** Message subtypes that are not activity (joins, leaves, renames, ...). */
  const SubtypeBlacklist: seq<string> :=
    ["channel_leave", "channel_join", "channel_name", "channel_unarchive", "channel_purpose", "channel_topic"]

  /** Usernames whose messages are not activity (the archiver's own posts). */
  const UsernameBlacklist: seq<string> := ["Slackr-Archiver"]

  /** 48 hours, in seconds: how old a message may be and still count as recent. */
  const RecentWindow: int := 48 * 60 * 60

  const MicrosPerSecond: nat := 1_000_000

  /** A message of a channel's history. `ts` is the workspace's
      "seconds.microseconds" timestamp, held as a count of microseconds;
      `subtype` and `username` are absent on ordinary user messages. */
  datatype Message = Message(ts: nat, text: string, subtype: Option<string>, username: Option<string>)

  /** A channel of the workspace listing, with the latest messages the
      history call returns for it (newest first, as the workspace sends them). */
  datatype Channel = Channel(id: string, name: string, isArchived: bool, history: seq<Message>)

  /** A row of the previous ledger as loaded from disk: either field may be
      blank (nil). */
  datatype PriorRow = PriorRow(id: Option<string>, lastActive: Option<Instant>)

  /** The stand-in history used when no ledger file exists. Its id sits under
      a string key while rows are looked up by a symbol key, so its id reads
      as nil and it matches no channel. */
  const NoHistory: seq<PriorRow> := [PriorRow(None, None)]

  /** The three observability outcomes of one channel. */
  datatype Tag = Active | Idle | New

  datatype Outcome = Outcome(tag: Tag, lastActive: Instant)

  /** The message's time truncated to whole seconds. */
  function Seconds(m: Message): Instant
  {
    m.ts / MicrosPerSecond
  }

  /** `list.include?(v)`: nil is never in a list of strings. */
  predicate Listed(v: Option<string>, list: seq<string>)
  {
    v.Some? && v.value in list
  }

  /** The per-message filter: not from a blacklisted username, not of a
      blacklisted subtype, and not older than 48 hours. There is no upper
      bound: a message stamped after `now` is kept. */
  predicate Kept(m: Message, now: Instant)
  {
    !Listed(m.username, UsernameBlacklist)
    && !Listed(m.subtype, SubtypeBlacklist)
    && Seconds(m) >= now - RecentWindow
  }

  /** The dates of the kept messages, in history order. */
  function KeptDates(msgs: seq<Message>, now: Instant): seq<Instant>
  {
    if msgs == [] then []
    else
      var last := msgs[|msgs| - 1];
      KeptDates(msgs[..|msgs| - 1], now) + (if Kept(last, now) then [Seconds(last)] else [])
  }

  /** A date is kept exactly when some kept message carries it; the list is
      empty exactly when no message is kept; and its head is the date of the
      first kept message of the history. */
  lemma {:induction false} KeptDatesSpec(msgs: seq<Message>, now: Instant)
    ensures forall t :: t in KeptDates(msgs, now) <==>
      exists i :: 0 <= i < |msgs| && Kept(msgs[i], now) && Seconds(msgs[i]) == t
    ensures KeptDates(msgs, now) == [] <==> forall i :: 0 <= i < |msgs| ==> !Kept(msgs[i], now)
    ensures KeptDates(msgs, now) != [] ==>
      exists i :: 0 <= i < |msgs| && Kept(msgs[i], now) && KeptDates(msgs, now)[0] == Seconds(msgs[i])
        && forall j :: 0 <= j < i ==> !Kept(msgs[j], now)
  {
    if msgs != [] {
      var n := |msgs| - 1;
      var init := msgs[..n];
      KeptDatesSpec(init, now);
      assert forall i :: 0 <= i < n ==> init[i] == msgs[i];
      var tail: seq<Instant> := if Kept(msgs[n], now) then [Seconds(msgs[n])] else [];
      assert KeptDates(msgs, now) == KeptDates(init, now) + tail;
      forall t
        ensures t in KeptDates(msgs, now) ==>
          exists i :: 0 <= i < |msgs| && Kept(msgs[i], now) && Seconds(msgs[i]) == t
      {
        if t in KeptDates(init, now) {
          var i :| 0 <= i < n && Kept(init[i], now) && Seconds(init[i]) == t;
          assert Kept(msgs[i], now) && Seconds(msgs[i]) == t;
        }
      }
      forall t | exists i :: 0 <= i < |msgs| && Kept(msgs[i], now) && Seconds(msgs[i]) == t
        ensures t in KeptDates(msgs, now)
      {
        var i :| 0 <= i < |msgs| && Kept(msgs[i], now) && Seconds(msgs[i]) == t;
        if i < n {
          assert Kept(init[i], now) && Seconds(init[i]) == t;
        }
      }
      if KeptDates(init, now) == [] && Kept(msgs[n], now) {
        assert KeptDates(msgs, now)[0] == Seconds(msgs[n]);
      }
    }
  }

  /** When the history is newest first (as the workspace returns it), the
      first kept date is the latest kept date. */
  lemma FirstKeptIsNewest(msgs: seq<Message>, now: Instant)
    requires forall i, j :: 0 <= i < j < |msgs| ==> Seconds(msgs[j]) <= Seconds(msgs[i])
    requires KeptDates(msgs, now) != []
    ensures forall t :: t in KeptDates(msgs, now) ==> t <= KeptDates(msgs, now)[0]
  {
    KeptDatesSpec(msgs, now);
    var i :| 0 <= i < |msgs| && Kept(msgs[i], now) && KeptDates(msgs, now)[0] == Seconds(msgs[i])
      && forall j :: 0 <= j < i ==> !Kept(msgs[j], now);
    forall t | t in KeptDates(msgs, now)
      ensures t <= KeptDates(msgs, now)[0]
    {
      var j :| 0 <= j < |msgs| && Kept(msgs[j], now) && Seconds(msgs[j]) == t;
      assert i <= j;
    }
  }

  /** The inner loop over one channel's history: collects the dates of the
      kept messages in the order the history gives them. */
  method RecentMessageDates(history: seq<Message>, now: Instant) returns (dates: seq<Instant>)
    ensures dates == KeptDates(history, now)
  {
    dates := [];
    var i := 0;
    while i < |history|
      invariant 0 <= i <= |history|
      invariant dates == KeptDates(history[..i], now)
    {
      var msg := history[i];
      if !Listed(msg.username, UsernameBlacklist) {
        if !Listed(msg.subtype, SubtypeBlacklist) {
          if Seconds(msg) >= now - RecentWindow {
            dates := dates + [Seconds(msg)];
          }
        }
      }
      assert history[..i + 1][..i] == history[..i];
      i := i + 1;
    }
    assert history[..i] == history;
  }

  /** The index of the first previous row whose id is `id`, if any. */
  function FirstMatch(prior: seq<PriorRow>, id: string): (k: Option<nat>)
    ensures k.Some? ==>
      && k.value < |prior| && prior[k.value].id == Some(id)
      && (forall j :: 0 <= j < k.value ==> prior[j].id != Some(id))
    ensures k.None? ==> forall j :: 0 <= j < |prior| ==> prior[j].id != Some(id)
  {
    if prior == [] then None
    else if prior[0].id == Some(id) then Some(0)
    else
      match FirstMatch(prior[1..], id)
      case None => None
      case Some(k) => Some(k + 1)
  }

  /** The previous last-active date of channel `id`: that of the first row
      with this id, absent when there is no such row or its date is blank. */
  function PriorDate(prior: seq<PriorRow>, id: string): (d: Option<Instant>)
    ensures d.Some? ==>
      exists k :: 0 <= k < |prior| && prior[k].id == Some(id) && prior[k].lastActive == d
        && forall j :: 0 <= j < k ==> prior[j].id != Some(id)
    ensures (forall k :: 0 <= k < |prior| ==> prior[k].id != Some(id)) ==> d.None?
    ensures forall k :: (0 <= k < |prior| && prior[k].id == Some(id)
      && forall j :: 0 <= j < k ==> prior[j].id != Some(id)) ==> d == prior[k].lastActive
  {
    match FirstMatch(prior, id)
    case None => None
    case Some(k) => prior[k].lastActive
  }

  /** The per-channel decision: the first kept message's date (active), else
      the previous date carried forward (idle), else `now` (new). */
  function Reconcile(ch: Channel, prior: seq<PriorRow>, now: Instant): Outcome
  {
    var kept := KeptDates(ch.history, now);
    if kept != [] then Outcome(Active, kept[0])
    else
      match PriorDate(prior, ch.id)
      case Some(d) => Outcome(Idle, d)
      case None => Outcome(New, now)
  }

  /** What each of the three outcomes means in terms of the channel's
      history and the previous ledger. */
  lemma ReconcileCases(ch: Channel, prior: seq<PriorRow>, now: Instant)
    ensures Reconcile(ch, prior, now).tag == Active <==>
      exists i :: 0 <= i < |ch.history| && Kept(ch.history[i], now)
    ensures Reconcile(ch, prior, now).tag == Active ==>
      exists i :: 0 <= i < |ch.history| && Kept(ch.history[i], now)
        && (forall j :: 0 <= j < i ==> !Kept(ch.history[j], now))
        && Reconcile(ch, prior, now).lastActive == Seconds(ch.history[i])
    ensures Reconcile(ch, prior, now).tag == Idle <==>
      (forall i :: 0 <= i < |ch.history| ==> !Kept(ch.history[i], now)) && PriorDate(prior, ch.id).Some?
    ensures Reconcile(ch, prior, now).tag == Idle ==>
      PriorDate(prior, ch.id) == Some(Reconcile(ch, prior, now).lastActive)
    ensures Reconcile(ch, prior, now).tag == New <==>
      (forall i :: 0 <= i < |ch.history| ==> !Kept(ch.history[i], now)) && PriorDate(prior, ch.id).None?
    ensures Reconcile(ch, prior, now).tag == New ==> Reconcile(ch, prior, now).lastActive == now
  {
    KeptDatesSpec(ch.history, now);
  }

  /** Without a ledger file no channel is ever idle: a channel with no kept
      message is new and gets `now`. */
  lemma NoHistoryMatchesNothing(id: string)
    ensures PriorDate(NoHistory, id) == None
  {
  }

  /** `select { |data| !data.is_archived }` on the channel listing. */
  function NonArchived(listing: seq<Channel>): (r: seq<Channel>)
    ensures |r| <= |listing|
    ensures forall c :: c in r <==> c in listing && !c.isArchived
  {
    if listing == [] then []
    else
      var n := |listing| - 1;
      NonArchived(listing[..n]) + (if listing[n].isArchived then [] else [listing[n]])
  }

  /** The listing positions the selection takes its channels from. */
  function LivePositions(listing: seq<Channel>): seq<nat>
  {
    if listing == [] then []
    else
      var n := |listing| - 1;
      LivePositions(listing[..n]) + (if listing[n].isArchived then [] else [n])
  }

  /** The taken positions lie within the listing, strictly increase, and
      are exactly the positions of non-archived channels. */
  lemma {:induction false} LivePositionsOrdered(listing: seq<Channel>)
    ensures forall k :: 0 <= k < |LivePositions(listing)| ==> LivePositions(listing)[k] < |listing|
    ensures forall k, l :: 0 <= k < l < |LivePositions(listing)| ==>
      LivePositions(listing)[k] < LivePositions(listing)[l]
    ensures forall i :: 0 <= i < |listing| ==> (i in LivePositions(listing) <==> !listing[i].isArchived)
  {
    if listing != [] {
      var n := |listing| - 1;
      var init := listing[..n];
      LivePositionsOrdered(init);
      assert forall i :: 0 <= i < n ==> init[i] == listing[i];
      var ps := LivePositions(init);
      assert forall k :: 0 <= k < |ps| ==> ps[k] < n;
      assert n !in ps;
    }
  }

  /** Entry k of the selection is the channel at taken position k. */
  lemma {:induction false} NonArchivedAt(listing: seq<Channel>)
    ensures |NonArchived(listing)| == |LivePositions(listing)|
    ensures forall k :: 0 <= k < |LivePositions(listing)| ==>
      LivePositions(listing)[k] < |listing| && NonArchived(listing)[k] == listing[LivePositions(listing)[k]]
  {
    if listing != [] {
      var n := |listing| - 1;
      var init := listing[..n];
      NonArchivedAt(init);
      var ps := LivePositions(init);
      var r := NonArchived(init);
      var tailP: seq<nat> := if listing[n].isArchived then [] else [n];
      var tailR: seq<Channel> := if listing[n].isArchived then [] else [listing[n]];
      assert LivePositions(listing) == ps + tailP;
      assert NonArchived(listing) == r + tailR;
      forall k | 0 <= k < |LivePositions(listing)|
        ensures LivePositions(listing)[k] < |listing| && NonArchived(listing)[k] == listing[LivePositions(listing)[k]]
      {
        if k < |ps| {
          assert LivePositions(listing)[k] == ps[k] && NonArchived(listing)[k] == r[k];
          assert init[ps[k]] == listing[ps[k]];
        }
      }
    }
  }

  /** The selection is the stable filter of the listing: entry k is the
      channel at listing position LivePositions[k], the positions strictly
      increase (listing order is kept, and no channel is taken twice), and a
      position is taken exactly when its channel is not archived. */
  lemma NonArchivedIsStableFilter(listing: seq<Channel>)
    ensures |NonArchived(listing)| == |LivePositions(listing)|
    ensures forall k :: 0 <= k < |LivePositions(listing)| ==>
      && LivePositions(listing)[k] < |listing|
      && NonArchived(listing)[k] == listing[LivePositions(listing)[k]]
    ensures forall k, l :: 0 <= k < l < |LivePositions(listing)| ==>
      LivePositions(listing)[k] < LivePositions(listing)[l]
    ensures forall i :: 0 <= i < |listing| ==> (i in LivePositions(listing) <==> !listing[i].isArchived)
  {
    LivePositionsOrdered(listing);
    NonArchivedAt(listing);
  }

  /** The rows written to the new ledger for channels `chs`. */
  function LedgerRows(chs: seq<Channel>, prior: seq<PriorRow>, now: Instant): seq<ChannelRow>
  {
    if chs == [] then []
    else
      var ch := chs[|chs| - 1];
      LedgerRows(chs[..|chs| - 1], prior, now) + [ChannelRow(ch.name, ch.id, Reconcile(ch, prior, now).lastActive)]
  }

  /** The names of the channels among `chs` whose outcome carries `tag`. */
  function Tagged(chs: seq<Channel>, prior: seq<PriorRow>, now: Instant, tag: Tag): seq<string>
  {
    if chs == [] then []
    else
      var ch := chs[|chs| - 1];
      Tagged(chs[..|chs| - 1], prior, now, tag) + (if Reconcile(ch, prior, now).tag == tag then [ch.name] else [])
  }

  /** The positions among `chs` of the channels whose outcome carries `tag`. */
  function TagPositions(chs: seq<Channel>, prior: seq<PriorRow>, now: Instant, tag: Tag): seq<nat>
  {
    if chs == [] then []
    else
      var n := |chs| - 1;
      TagPositions(chs[..n], prior, now, tag) + (if Reconcile(chs[n], prior, now).tag == tag then [n] else [])
  }

  /** The positions a tag list takes lie among the channels, strictly
      increase, and are exactly those of the channels with that outcome. */
  lemma {:induction false} TagPositionsOrdered(chs: seq<Channel>, prior: seq<PriorRow>, now: Instant, tag: Tag)
    ensures forall k :: 0 <= k < |TagPositions(chs, prior, now, tag)| ==> TagPositions(chs, prior, now, tag)[k] < |chs|
    ensures forall k, l :: 0 <= k < l < |TagPositions(chs, prior, now, tag)| ==>
      TagPositions(chs, prior, now, tag)[k] < TagPositions(chs, prior, now, tag)[l]
    ensures forall i :: 0 <= i < |chs| ==>
      (i in TagPositions(chs, prior, now, tag) <==> Reconcile(chs[i], prior, now).tag == tag)
  {
    if chs != [] {
      var n := |chs| - 1;
      var init := chs[..n];
      TagPositionsOrdered(init, prior, now, tag);
      var ps := TagPositions(init, prior, now, tag);
      var tailP: seq<nat> := if Reconcile(chs[n], prior, now).tag == tag then [n] else [];
      assert TagPositions(chs, prior, now, tag) == ps + tailP;
      assert forall k :: 0 <= k < |ps| ==> ps[k] < n;
      forall i | 0 <= i < |chs|
        ensures i in TagPositions(chs, prior, now, tag) <==> Reconcile(chs[i], prior, now).tag == tag
      {
        if i < n {
          assert init[i] == chs[i];
          assert i !in tailP;
        } else {
          assert n !in ps;
        }
      }
    }
  }

  /** Entry k of a tag list is the name of the channel at its k-th position:
      the active, idle and new lists are the channels filtered by outcome,
      in processing order. */
  lemma {:induction false} TaggedAt(chs: seq<Channel>, prior: seq<PriorRow>, now: Instant, tag: Tag)
    ensures |Tagged(chs, prior, now, tag)| == |TagPositions(chs, prior, now, tag)|
    ensures forall k :: 0 <= k < |TagPositions(chs, prior, now, tag)| ==>
      TagPositions(chs, prior, now, tag)[k] < |chs|
      && Tagged(chs, prior, now, tag)[k] == chs[TagPositions(chs, prior, now, tag)[k]].name
  {
    if chs != [] {
      var n := |chs| - 1;
      var init := chs[..n];
      TaggedAt(init, prior, now, tag);
      var ps := TagPositions(init, prior, now, tag);
      var r := Tagged(init, prior, now, tag);
      var hit := Reconcile(chs[n], prior, now).tag == tag;
      var tailP: seq<nat> := if hit then [n] else [];
      var tailR: seq<string> := if hit then [chs[n].name] else [];
      assert TagPositions(chs, prior, now, tag) == ps + tailP;
      assert Tagged(chs, prior, now, tag) == r + tailR;
      forall k | 0 <= k < |TagPositions(chs, prior, now, tag)|
        ensures TagPositions(chs, prior, now, tag)[k] < |chs|
          && Tagged(chs, prior, now, tag)[k] == chs[TagPositions(chs, prior, now, tag)[k]].name
      {
        if k < |ps| {
          assert TagPositions(chs, prior, now, tag)[k] == ps[k] && Tagged(chs, prior, now, tag)[k] == r[k];
          assert init[ps[k]] == chs[ps[k]];
        }
      }
    }
  }

  /** The ledger has exactly one row per processed channel, in the same
      order, carrying that channel's name and id and its reconciled date. */
  lemma {:induction false} LedgerRowsFaithful(chs: seq<Channel>, prior: seq<PriorRow>, now: Instant)
    ensures |LedgerRows(chs, prior, now)| == |chs|
    ensures forall i :: 0 <= i < |chs| ==>
      LedgerRows(chs, prior, now)[i] == ChannelRow(chs[i].name, chs[i].id, Reconcile(chs[i], prior, now).lastActive)
  {
    if chs != [] {
      var n := |chs| - 1;
      LedgerRowsFaithful(chs[..n], prior, now);
      assert forall i :: 0 <= i < n ==> chs[..n][i] == chs[i];
    }
  }

  /** Every processed channel is counted in exactly one of active, idle and
      new. */
  lemma {:induction false} TagCountsSum(chs: seq<Channel>, prior: seq<PriorRow>, now: Instant)
    ensures |Tagged(chs, prior, now, Active)| + |Tagged(chs, prior, now, Idle)| + |Tagged(chs, prior, now, New)| == |chs|
  {
    if chs != [] {
      TagCountsSum(chs[..|chs| - 1], prior, now);
    }
  }

  /** With the stand-in history every channel is active or new. */
  lemma {:induction false} NoHistoryNeverIdle(chs: seq<Channel>, now: Instant)
    ensures Tagged(chs, NoHistory, now, Idle) == []
    ensures |Tagged(chs, NoHistory, now, Active)| + |Tagged(chs, NoHistory, now, New)| == |chs|
  {
    if chs != [] {
      NoHistoryNeverIdle(chs[..|chs| - 1], now);
      NoHistoryMatchesNothing(chs[|chs| - 1].id);
    }
  }

  /** The new ledger holds one row per non-archived listed channel, in
      listing order, and nothing else: row k is the row of the channel at
      listing position LivePositions[k], those positions strictly increase
      and are exactly the non-archived ones. Archived channels are never
      processed, and previous rows of channels no longer listed are not
      carried over. */
  lemma LedgerMatchesListing(listing: seq<Channel>, prior: seq<PriorRow>, now: Instant)
    ensures |LedgerRows(NonArchived(listing), prior, now)| == |LivePositions(listing)|
    ensures forall k :: 0 <= k < |LivePositions(listing)| ==>
      && LivePositions(listing)[k] < |listing|
      && LedgerRows(NonArchived(listing), prior, now)[k] == ChannelRow(
           listing[LivePositions(listing)[k]].name, listing[LivePositions(listing)[k]].id,
           Reconcile(listing[LivePositions(listing)[k]], prior, now).lastActive)
    ensures forall k, l :: 0 <= k < l < |LivePositions(listing)| ==>
      LivePositions(listing)[k] < LivePositions(listing)[l]
    ensures forall i :: 0 <= i < |listing| ==> (i in LivePositions(listing) <==> !listing[i].isArchived)
  {
    NonArchivedIsStableFilter(listing);
    LedgerRowsFaithful(NonArchived(listing), prior, now);
  }

  /** The body of the outer loop for one channel: the kept dates, then the
      previous row's date, then the branches that settle the last-active
      date and the channel's tag. */
  method ProcessChannel(channel: Channel, prior: seq<PriorRow>, now: Instant) returns (lastActive: Instant, tag: Tag)
    ensures Outcome(tag, lastActive) == Reconcile(channel, prior, now)
  {
    var recent := RecentMessageDates(channel.history, now);
    // the head of the list, since the history comes newest first
    var found: Option<Instant> := if recent != [] then Some(recent[0]) else None;
    tag := Active;
    var priorDate := PriorDate(prior, channel.id);
    if found.None? {
      if priorDate.None? {
        found := Some(now);
        tag := New;
      } else {
        found := priorDate;
        tag := Idle;
      }
    }
    lastActive := found.value;
  }

  /** The recon run over a channel listing: the outer loop of the source.
      Returns the rows of the new ledger (which replaces the old one whole)
      and the names counted active, idle and new. */
  method Run(listing: seq<Channel>, prior: seq<PriorRow>, now: Instant)
    returns (rows: seq<ChannelRow>, activeChannels: seq<string>, idleChannels: seq<string>, newChannels: seq<string>)
    ensures rows == LedgerRows(NonArchived(listing), prior, now)
    ensures activeChannels == Tagged(NonArchived(listing), prior, now, Active)
    ensures idleChannels == Tagged(NonArchived(listing), prior, now, Idle)
    ensures newChannels == Tagged(NonArchived(listing), prior, now, New)
  {
    var channels := NonArchived(listing);
    rows, activeChannels, idleChannels, newChannels := [], [], [], [];
    var i := 0;
    while i < |channels|
      invariant 0 <= i <= |channels|
      invariant rows == LedgerRows(channels[..i], prior, now)
      invariant activeChannels == Tagged(channels[..i], prior, now, Active)
      invariant idleChannels == Tagged(channels[..i], prior, now, Idle)
      invariant newChannels == Tagged(channels[..i], prior, now, New)
    {
      var channel := channels[i];
      var lastActive, tag := ProcessChannel(channel, prior, now);
      match tag {
        case Active => activeChannels := activeChannels + [channel.name];
        case Idle => idleChannels := idleChannels + [channel.name];
        case New => newChannels := newChannels + [channel.name];
      }
      rows := rows + [ChannelRow(channel.name, channel.id, lastActive)];
      assert channels[..i + 1][..i] == channels[..i];
      i := i + 1;
    }
    assert channels[..i] == channels;
  }
}
