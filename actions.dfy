/** The archiver's action phase (archiver_slackr.rb): depending on the run
    mode, archive the to-archive channels (posting a closing message and
    appending an audit line for each), warn the notify channels, or do
    nothing. Side effects are recorded, in order, as a trace of effects. */
module Actions {
  import opened Ledger
  import opened Classification

  /** DRY, NOTIFY, ACTIVE, or nil when the flag matched none of the known
      ones (the run then goes on and does nothing in this phase). */
  datatype RunMode = Dry | Notify | Active | Unrecognized

  /** Posted to a channel right after it is archived. */
  const ArchivedNotice: string :=
    "Hello! This channel has been found ded and has been archived. Please contact IT with any memoriam or resurrection requests."

  /** Posted to a channel that is due for archiving in the future. */
  const InactivityNotice: string :=
    "Hello! This channel looks like it hasn't been used in a while! Please note that it is now marked to be archived in 60 Days. Please contact IT to request this channel be whitelisted if you want to keep it."

  /** One side effect of the run: a remote archive call, a remote post, or
      a line appended to the archived-channels audit file. */
  datatype Effect =
    | Archived(channelId: string)
    | Posted(channelId: string, text: string)
    | Audited(channelName: string, at: Instant)

  /** The effects for one channel of the list the mode walks. */
  function Steps(c: ChannelRef, mode: RunMode, runDate: Instant): seq<Effect>
  {
    match mode
    case Active => [Archived(c.id), Posted(c.id, ArchivedNotice), Audited(c.name, runDate)]
    case Notify => [Posted(c.id, InactivityNotice)]
    case _ => []
  }

  /** The effects of walking `cs` in order. */
  function Expand(cs: seq<ChannelRef>, mode: RunMode, runDate: Instant): seq<Effect>
  {
    if cs == [] then []
    else Expand(cs[..|cs| - 1], mode, runDate) + Steps(cs[|cs| - 1], mode, runDate)
  }

  /** The list a mode walks: the to-archive list when ACTIVE, the notify list
      when NOTIFY, none otherwise. */
  function Walked(mode: RunMode, toArchive: seq<ChannelRef>, notify: seq<ChannelRef>): seq<ChannelRef>
  {
    match mode
    case Active => toArchive
    case Notify => notify
    case _ => []
  }

  /** Every effect the mode calls for, when no call fails. */
  function Plan(mode: RunMode, toArchive: seq<ChannelRef>, notify: seq<ChannelRef>, runDate: Instant): seq<Effect>
  {
    Expand(Walked(mode, toArchive, notify), mode, runDate)
  }

  /** A remote call the workspace refuses raises and ends the run; writing
      the audit file is not a remote call. */
  predicate Fails(e: Effect, rejected: set<Effect>)
  {
    !e.Audited? && e in rejected
  }

  /** The effects that happen when `plan` is carried out against a workspace
      that refuses the calls in `rejected`: everything before the first
      refused call. */
  function Performed(plan: seq<Effect>, rejected: set<Effect>): seq<Effect>
  {
    if plan == [] || Fails(plan[0], rejected) then []
    else [plan[0]] + Performed(plan[1..], rejected)
  }

  /** What is performed is a prefix of the plan; it is the whole plan
      exactly when no call of the plan is refused, and otherwise it stops
      right before a refused call. */
  lemma {:induction false} PerformedIsPrefix(plan: seq<Effect>, rejected: set<Effect>)
    ensures |Performed(plan, rejected)| <= |plan|
    ensures Performed(plan, rejected) == plan[..|Performed(plan, rejected)|]
    ensures Performed(plan, rejected) == plan <==> forall i :: 0 <= i < |plan| ==> !Fails(plan[i], rejected)
    ensures |Performed(plan, rejected)| < |plan| ==> Fails(plan[|Performed(plan, rejected)|], rejected)
    ensures forall i :: 0 <= i < |Performed(plan, rejected)| ==> !Fails(plan[i], rejected)
  {
    if plan != [] && !Fails(plan[0], rejected) {
      PerformedIsPrefix(plan[1..], rejected);
      assert forall i :: 1 <= i < |plan| ==> plan[1..][i - 1] == plan[i];
    }
  }

  /** Carrying out `p + q`: `q` is reached only if all of `p` succeeds. */
  lemma {:induction false} PerformedConcat(p: seq<Effect>, q: seq<Effect>, rejected: set<Effect>)
    ensures Performed(p + q, rejected) == if Performed(p, rejected) == p then p + Performed(q, rejected) else Performed(p, rejected)
  {
    if p == [] {
      assert p + q == q;
    } else {
      assert (p + q)[0] == p[0] && (p + q)[1..] == p[1..] + q;
      if !Fails(p[0], rejected) {
        PerformedConcat(p[1..], q, rejected);
        assert p == [p[0]] + p[1..];
      }
    }
  }

  /** Walking a list splits at any point into walking its two parts. */
  lemma {:induction false} ExpandSplit(cs: seq<ChannelRef>, i: nat, mode: RunMode, runDate: Instant)
    requires i <= |cs|
    ensures Expand(cs, mode, runDate) == Expand(cs[..i], mode, runDate) + Expand(cs[i..], mode, runDate)
  {
    if i < |cs| {
      var n := |cs| - 1;
      ExpandSplit(cs[..n], i, mode, runDate);
      assert cs[..n][..i] == cs[..i];
      assert cs[i..][..|cs[i..]| - 1] == cs[..n][i..];
    } else {
      assert cs[..i] == cs;
    }
  }

  /** In ACTIVE mode each to-archive channel gets, in this order, one
      archive call, one closing post and one audit line, and nothing else
      happens. */
  lemma {:induction false} ActivePlanShape(cs: seq<ChannelRef>, runDate: Instant)
    ensures |Expand(cs, Active, runDate)| == 3 * |cs|
    ensures forall k :: 0 <= k < |cs| ==>
      && Expand(cs, Active, runDate)[3 * k] == Archived(cs[k].id)
      && Expand(cs, Active, runDate)[3 * k + 1] == Posted(cs[k].id, ArchivedNotice)
      && Expand(cs, Active, runDate)[3 * k + 2] == Audited(cs[k].name, runDate)
  {
    if cs != [] {
      var n := |cs| - 1;
      ActivePlanShape(cs[..n], runDate);
      assert forall k :: 0 <= k < n ==> cs[..n][k] == cs[k];
    }
  }

  /** In NOTIFY mode each notify channel gets exactly one warning post, in
      list order, and nothing else happens. */
  lemma {:induction false} NotifyPlanShape(cs: seq<ChannelRef>, runDate: Instant)
    ensures |Expand(cs, Notify, runDate)| == |cs|
    ensures forall k :: 0 <= k < |cs| ==> Expand(cs, Notify, runDate)[k] == Posted(cs[k].id, InactivityNotice)
  {
    if cs != [] {
      var n := |cs| - 1;
      NotifyPlanShape(cs[..n], runDate);
      assert forall k :: 0 <= k < n ==> cs[..n][k] == cs[k];
    }
  }

  /** The dry run and an unrecognised mode call nothing remote and write
      nothing; only ACTIVE archives or audits; only ACTIVE and NOTIFY post. */
  lemma {:induction false} ModeLaws(mode: RunMode, toArchive: seq<ChannelRef>, notify: seq<ChannelRef>, runDate: Instant)
    ensures (mode == Dry || mode == Unrecognized) ==> Plan(mode, toArchive, notify, runDate) == []
    ensures forall e :: e in Plan(mode, toArchive, notify, runDate) && !e.Posted? ==> mode == Active
    ensures forall e :: e in Plan(mode, toArchive, notify, runDate) && e.Posted? && e.text == InactivityNotice ==> mode == Notify
  {
    var cs := Walked(mode, toArchive, notify);
    EffectsOfWalk(cs, mode, runDate);
    assert |ArchivedNotice| != |InactivityNotice|;
  }

  /** Every effect of a walk is one of the steps of a walked channel. */
  lemma {:induction false} EffectsOfWalk(cs: seq<ChannelRef>, mode: RunMode, runDate: Instant)
    ensures forall e :: e in Expand(cs, mode, runDate) ==> exists c :: c in cs && e in Steps(c, mode, runDate)
  {
    if cs != [] {
      var n := |cs| - 1;
      EffectsOfWalk(cs[..n], mode, runDate);
      forall e | e in Expand(cs, mode, runDate)
        ensures exists c :: c in cs && e in Steps(c, mode, runDate)
      {
        if e in Expand(cs[..n], mode, runDate) {
          var c :| c in cs[..n] && e in Steps(c, mode, runDate);
          assert c in cs;
        } else {
          assert e in Steps(cs[n], mode, runDate);
        }
      }
    }
  }

  /** `plan` has the ACTIVE shape for the to-archive list `cs`. */
  ghost predicate ActiveShaped(plan: seq<Effect>, cs: seq<ChannelRef>, runDate: Instant)
  {
    && |plan| == 3 * |cs|
    && forall k :: 0 <= k < |cs| ==>
      && plan[3 * k] == Archived(cs[k].id)
      && plan[3 * k + 1] == Posted(cs[k].id, ArchivedNotice)
      && plan[3 * k + 2] == Audited(cs[k].name, runDate)
  }

  lemma DivideByThree(p: nat) returns (k: nat, j: nat)
    ensures p == 3 * k + j && j < 3
  {
    k, j := p / 3, p % 3;
  }

  /** In any prefix of an ACTIVE-shaped plan, an audit line sits right after
      its channel's archive call and closing post. */
  lemma AuditInShapedPrefix(done: seq<Effect>, plan: seq<Effect>, cs: seq<ChannelRef>, runDate: Instant, p: nat)
    requires ActiveShaped(plan, cs, runDate)
    requires |done| <= |plan| && done == plan[..|done|]
    requires p < |done| && done[p].Audited?
    ensures exists k :: (0 <= k < |cs| && p == 3 * k + 2
      && done[p - 2] == Archived(cs[k].id)
      && done[p - 1] == Posted(cs[k].id, ArchivedNotice)
      && done[p] == Audited(cs[k].name, runDate))
  {
    var k, j := DivideByThree(p);
    assert k < |cs|;
    assert done[p] == plan[p] && done[p - j] == plan[3 * k];
    assert plan[3 * k].Archived? && plan[3 * k + 1].Posted?;
    assert j == 2;
    assert done[p - 1] == plan[3 * k + 1];
  }

  /** An audit line is written only for a channel whose archive call and
      closing post both went through, right before it. */
  lemma AuditFollowsArchive(cs: seq<ChannelRef>, runDate: Instant, rejected: set<Effect>, p: nat)
    requires p < |Performed(Expand(cs, Active, runDate), rejected)|
    requires Performed(Expand(cs, Active, runDate), rejected)[p].Audited?
    ensures exists k :: (0 <= k < |cs| && p == 3 * k + 2
      && Performed(Expand(cs, Active, runDate), rejected)[p - 2] == Archived(cs[k].id)
      && Performed(Expand(cs, Active, runDate), rejected)[p - 1] == Posted(cs[k].id, ArchivedNotice)
      && Performed(Expand(cs, Active, runDate), rejected)[p] == Audited(cs[k].name, runDate))
  {
    var plan := Expand(cs, Active, runDate);
    PerformedIsPrefix(plan, rejected);
    ActivePlanShape(cs, runDate);
    AuditInShapedPrefix(Performed(plan, rejected), plan, cs, runDate, p);
  }

  /** The outside world the run acts on: the workspace's archive and post
      calls and the audit file, with the effects so far in `log`. The
      workspace refuses (raises on) the calls in `rejected`. */
  class Environment {
    var log: seq<Effect>
    const rejected: set<Effect>

    constructor (rejected: set<Effect>)
      ensures log == [] && this.rejected == rejected
    {
      log := [];
      this.rejected := rejected;
    }

    method ArchiveChannel(id: string) returns (ok: bool)
      modifies this
      ensures ok <==> !Fails(Archived(id), rejected)
      ensures log == old(log) + if ok then [Archived(id)] else []
    {
      ok := !Fails(Archived(id), rejected);
      if ok {
        log := log + [Archived(id)];
      }
    }

    method PostMessage(id: string, text: string) returns (ok: bool)
      modifies this
      ensures ok <==> !Fails(Posted(id, text), rejected)
      ensures log == old(log) + if ok then [Posted(id, text)] else []
    {
      ok := !Fails(Posted(id, text), rejected);
      if ok {
        log := log + [Posted(id, text)];
      }
    }

    method AppendAudit(name: string, at: Instant)
      modifies this
      ensures log == old(log) + [Audited(name, at)]
    {
      log := log + [Audited(name, at)];
    }
  }

  /** Step i of a walk fails after steps [..i] went through: the whole walk
      performs those steps and `partial`. */
  lemma WalkStopsAt(cs: seq<ChannelRef>, i: nat, mode: RunMode, runDate: Instant, rejected: set<Effect>, partial: seq<Effect>)
    requires i < |cs|
    requires Performed(Expand(cs[..i], mode, runDate), rejected) == Expand(cs[..i], mode, runDate)
    requires Performed(Steps(cs[i], mode, runDate), rejected) == partial != Steps(cs[i], mode, runDate)
    ensures Performed(Expand(cs, mode, runDate), rejected) == Expand(cs[..i], mode, runDate) + partial
    ensures Performed(Expand(cs, mode, runDate), rejected) != Expand(cs, mode, runDate)
  {
    PerformedIsPrefix(Steps(cs[i], mode, runDate), rejected);
    ExpandSplit(cs, i, mode, runDate);
    ExpandSplit(cs[i..], 1, mode, runDate);
    assert cs[i..][..1] == [cs[i]];
    assert Expand([cs[i]], mode, runDate) == Steps(cs[i], mode, runDate) by {
      assert [cs[i]][..0] == [];
    }
    PerformedConcat(Expand(cs[..i], mode, runDate), Expand(cs[i..], mode, runDate), rejected);
    PerformedConcat(Steps(cs[i], mode, runDate), Expand(cs[i..][1..], mode, runDate), rejected);
  }

  /** Steps [..i] went through and so does step i. */
  lemma WalkExtends(cs: seq<ChannelRef>, i: nat, mode: RunMode, runDate: Instant, rejected: set<Effect>)
    requires i < |cs|
    requires Performed(Expand(cs[..i], mode, runDate), rejected) == Expand(cs[..i], mode, runDate)
    requires Performed(Steps(cs[i], mode, runDate), rejected) == Steps(cs[i], mode, runDate)
    ensures Expand(cs[..i + 1], mode, runDate) == Expand(cs[..i], mode, runDate) + Steps(cs[i], mode, runDate)
    ensures Performed(Expand(cs[..i + 1], mode, runDate), rejected) == Expand(cs[..i + 1], mode, runDate)
  {
    assert cs[..i + 1][..i] == cs[..i];
    PerformedConcat(Expand(cs[..i], mode, runDate), Steps(cs[i], mode, runDate), rejected);
  }

  /** ACTIVE, one channel: archive it, post the closing message, append the
      audit line; a refused call ends the run at that point. */
  method ArchiveOne(channel: ChannelRef, runDate: Instant, env: Environment) returns (ok: bool)
    modifies env
    ensures env.log == old(env.log) + Performed(Steps(channel, Active, runDate), env.rejected)
    ensures ok <==> Performed(Steps(channel, Active, runDate), env.rejected) == Steps(channel, Active, runDate)
  {
    ghost var steps := Steps(channel, Active, runDate);
    ghost var rest := [Posted(channel.id, ArchivedNotice), Audited(channel.name, runDate)];
    ghost var last := [Audited(channel.name, runDate)];
    assert steps[1..] == rest && rest[1..] == last && last[1..] == [];
    ok := env.ArchiveChannel(channel.id);
    if !ok {
      assert Performed(steps, env.rejected) == [];
      return;
    }
    ok := env.PostMessage(channel.id, ArchivedNotice);
    if !ok {
      assert Performed(rest, env.rejected) == [];
      assert Performed(steps, env.rejected) == [Archived(channel.id)];
      return;
    }
    assert Performed(last, env.rejected) == last;
    assert Performed(rest, env.rejected) == rest;
    assert Performed(steps, env.rejected) == steps;
    env.AppendAudit(channel.name, runDate);
  }

  /** ACTIVE: for each to-archive channel, archive it, post the closing
      message and append the audit line; a refused call ends the run. */
  method ArchiveChannels(toArchive: seq<ChannelRef>, runDate: Instant, env: Environment) returns (ok: bool)
    modifies env
    ensures env.log == old(env.log) + Performed(Expand(toArchive, Active, runDate), env.rejected)
    ensures ok <==> Performed(Expand(toArchive, Active, runDate), env.rejected) == Expand(toArchive, Active, runDate)
  {
    var i := 0;
    while i < |toArchive|
      invariant 0 <= i <= |toArchive|
      invariant env.log == old(env.log) + Expand(toArchive[..i], Active, runDate)
      invariant Performed(Expand(toArchive[..i], Active, runDate), env.rejected) == Expand(toArchive[..i], Active, runDate)
    {
      var channel := toArchive[i];
      ghost var done := Expand(toArchive[..i], Active, runDate);
      ghost var steps := Steps(channel, Active, runDate);
      ok := ArchiveOne(channel, runDate, env);
      if !ok {
        WalkStopsAt(toArchive, i, Active, runDate, env.rejected, Performed(steps, env.rejected));
        assert env.log == old(env.log) + (done + Performed(steps, env.rejected));
        assert Performed(Expand(toArchive, Active, runDate), env.rejected) == done + Performed(steps, env.rejected);
        return;
      }
      WalkExtends(toArchive, i, Active, runDate, env.rejected);
      assert env.log == old(env.log) + (done + steps);
      i := i + 1;
    }
    assert toArchive[..i] == toArchive;
    ok := true;
  }

  /** NOTIFY: post the warning to each notify channel; a refused call ends
      the run. */
  method NotifyChannels(notify: seq<ChannelRef>, runDate: Instant, env: Environment) returns (ok: bool)
    modifies env
    ensures env.log == old(env.log) + Performed(Expand(notify, Notify, runDate), env.rejected)
    ensures ok <==> Performed(Expand(notify, Notify, runDate), env.rejected) == Expand(notify, Notify, runDate)
  {
    var i := 0;
    while i < |notify|
      invariant 0 <= i <= |notify|
      invariant env.log == old(env.log) + Expand(notify[..i], Notify, runDate)
      invariant Performed(Expand(notify[..i], Notify, runDate), env.rejected) == Expand(notify[..i], Notify, runDate)
    {
      var channel := notify[i];
      ok := env.PostMessage(channel.id, InactivityNotice);
      if !ok {
        WalkStopsAt(notify, i, Notify, runDate, env.rejected, []);
        return;
      }
      PerformedIsPrefix(Steps(channel, Notify, runDate), env.rejected);
      WalkExtends(notify, i, Notify, runDate, env.rejected);
      i := i + 1;
    }
    assert notify[..i] == notify;
    ok := true;
  }

  /** The dispatch on the run mode. */
  method Execute(mode: RunMode, toArchive: seq<ChannelRef>, notify: seq<ChannelRef>, runDate: Instant, env: Environment)
    returns (ok: bool)
    modifies env
    ensures env.log == old(env.log) + Performed(Plan(mode, toArchive, notify, runDate), env.rejected)
    ensures ok <==> Performed(Plan(mode, toArchive, notify, runDate), env.rejected) == Plan(mode, toArchive, notify, runDate)
  {
    if mode == Active {
      ok := ArchiveChannels(toArchive, runDate, env);
    } else if mode == Dry {
      ok := true;
    } else if mode == Notify {
      ok := NotifyChannels(notify, runDate, env);
    } else {
      ok := true;
    }
  }
}
