/** Which members the reconciler reports for removal and for re-adding, said in terms of the proposals' own fields
    and of who is in the group. */
module ReconcileMembers {
  import opened Common
  import opened Reconcile
  import opened ReconcileNames
  import opened ReconcileLaws

  // ---------------------------------------------------------------- removals

  /** A member is tracked for removal exactly if some message of the first pass proposed it, at the label of the
      last one. */
  lemma RemovalsAreProposals(held: Option<Group>, messages: seq<Message>, m: MemberInfo)
    requires held.Some?
    ensures m in Removals(held, messages) <==>
            exists i :: 0 <= i < |messages| && ProposesRemoval(held.value.state.members, messages[i], m)
    ensures forall i: nat :: LastProposal(held.value.state.members, messages, m, i) ==>
              m in Removals(held, messages) && Removals(held, messages)[m] == messages[i].epoch
  {
    TrackedIfProposed(held.value, messages, m);
    forall i: nat | LastProposal(held.value.state.members, messages, m, i)
      ensures m in Removals(held, messages) && Removals(held, messages)[m] == messages[i].epoch
    {
      LabelOfLastProposal(held.value, messages, m, i);
    }
  }

  lemma {:induction false} TrackedIfProposed(g: Group, messages: seq<Message>, m: MemberInfo)
    ensures m in Removals(Some(g), messages) <==>
            exists i :: 0 <= i < |messages| && ProposesRemoval(g.state.members, messages[i], m)
  {
    if messages != [] {
      var n := |messages| - 1;
      TrackedIfProposed(g, messages[..n], m);
      ProposedLaw(g.state.members, messages[n], m);
      assert forall i :: 0 <= i < n ==> messages[..n][i] == messages[i];
      if i :| 0 <= i < n && ProposesRemoval(g.state.members, messages[..n][i], m) {
        assert ProposesRemoval(g.state.members, messages[i], m);
      }
    }
  }

  lemma {:induction false} LabelOfLastProposal(g: Group, messages: seq<Message>, m: MemberInfo, i: nat)
    requires LastProposal(g.state.members, messages, m, i)
    ensures m in Removals(Some(g), messages) && Removals(Some(g), messages)[m] == messages[i].epoch
  {
    var n := |messages| - 1;
    ProposedLaw(g.state.members, messages[n], m);
    if i < n {
      assert forall j :: 0 <= j < n ==> messages[..n][j] == messages[j];
      LabelOfLastProposal(g, messages[..n], m, i);
    }
  }

  /** The last message of the batch that proposed to remove this member. */
  ghost predicate LastProposal(members: set<string>, messages: seq<Message>, m: MemberInfo, i: nat) {
    && i < |messages| && ProposesRemoval(members, messages[i], m)
    && forall j :: i < j < |messages| ==> !ProposesRemoval(members, messages[j], m)
  }

  /** Still in the group held right after message `i`, if that is a commit labelled at or above `epoch`. */
  ghost predicate StaysAt(r: Replay, id: GroupId, messages: seq<Message>, latest: nat, f: Faults, m: MemberInfo,
                          epoch: nat, i: nat)
    requires i < |messages|
  {
    Stays(ReplayAll(r, id, messages[..i + 1], latest, f).held, messages[i], m, epoch)
  }

  ghost predicate Stays(held: Option<Group>, msg: Message, m: MemberInfo, epoch: nat) {
    msg.kind == CommitKind && msg.epoch >= epoch && held.Some? ==> StillMember(m, held.value.state.members)
  }

  /** After every commit of the batch labelled at or above `epoch`, still in the group held then. */
  ghost predicate StaysThroughout(r: Replay, id: GroupId, messages: seq<Message>, latest: nat, f: Faults, m: MemberInfo,
                                  epoch: nat)
  {
    forall i :: 0 <= i < |messages| ==> StaysAt(r, id, messages, latest, f, m, epoch, i)
  }

  lemma ThroughoutSnoc(r: Replay, id: GroupId, messages: seq<Message>, latest: nat, f: Faults, m: MemberInfo,
                       epoch: nat)
    requires messages != []
    ensures var n := |messages| - 1;
            StaysThroughout(r, id, messages, latest, f, m, epoch) <==>
            && StaysThroughout(r, id, messages[..n], latest, f, m, epoch)
            && StaysAt(r, id, messages, latest, f, m, epoch, n)
  {
    var n := |messages| - 1;
    forall i | 0 <= i < n
      ensures StaysAt(r, id, messages[..n], latest, f, m, epoch, i) <==>
              StaysAt(r, id, messages, latest, f, m, epoch, i)
    {
      StaysAtEarlier(r, id, messages, latest, f, m, epoch, i);
    }
  }

  /** Without a storage error a member is reported for removal exactly if it was proposed in the first pass and was
      still in the group after every commit of the batch labelled at or above its proposal's label. */
  lemma {:induction false} RemovalTracking(r: Replay, id: GroupId, messages: seq<Message>, latest: nat, f: Faults,
                                           m: MemberInfo)
    requires !ReplayAll(r, id, messages, latest, f).error
    ensures m in ReplayAll(r, id, messages, latest, f).toRemove <==>
            m in r.toRemove && StaysThroughout(r, id, messages, latest, f, m, r.toRemove[m])
    ensures m in ReplayAll(r, id, messages, latest, f).toRemove ==>
            ReplayAll(r, id, messages, latest, f).toRemove[m] == r.toRemove[m]
  {
    if messages != [] {
      RemovalTracking(r, id, messages[..|messages| - 1], latest, f, m);
      if m in r.toRemove {
        ThroughoutSnoc(r, id, messages, latest, f, m, r.toRemove[m]);
        StepTracks(r, id, messages, latest, f, m);
      }
    }
  }

  lemma StaysAtEarlier(r: Replay, id: GroupId, messages: seq<Message>, latest: nat, f: Faults, m: MemberInfo,
                       epoch: nat, i: nat)
    requires i < |messages| - 1
    ensures StaysAt(r, id, messages[..|messages| - 1], latest, f, m, epoch, i) <==>
            StaysAt(r, id, messages, latest, f, m, epoch, i)
  {
    assert messages[..|messages| - 1][..i + 1] == messages[..i + 1];
  }

  /** One step of the tracking. */
  lemma StepTracks(r: Replay, id: GroupId, messages: seq<Message>, latest: nat, f: Faults, m: MemberInfo)
    requires messages != [] && m in r.toRemove && !ReplayAll(r, id, messages, latest, f).error
    ensures var n := |messages| - 1;
            var before, after := ReplayAll(r, id, messages[..n], latest, f), ReplayAll(r, id, messages, latest, f);
            && (m in before.toRemove && before.toRemove[m] == r.toRemove[m] ==>
                  (m in after.toRemove <==> StaysAt(r, id, messages, latest, f, m, r.toRemove[m], n)))
            && (m in after.toRemove ==> m in before.toRemove && after.toRemove[m] == before.toRemove[m])
  {
    var n := |messages| - 1;
    assert messages[..n + 1] == messages;
    MessageTracks(ReplayAll(r, id, messages[..n], latest, f), id, messages[n], latest, f, n, m);
  }

  lemma MessageTracks(before: Replay, id: GroupId, msg: Message, latest: nat, f: Faults, i: nat, m: MemberInfo)
    requires !StepMessage(before, id, msg, latest, f, i).error
    ensures var after := StepMessage(before, id, msg, latest, f, i);
            && (m in before.toRemove ==> (m in after.toRemove <==> Stays(after.held, msg, m, before.toRemove[m])))
            && (m in after.toRemove ==> m in before.toRemove && after.toRemove[m] == before.toRemove[m])
  {
    var held := StepMessage(before, id, msg, latest, f, i).held;
    if held.Some? {
      GoneLaw(m, held.value.state.members);
    }
  }

  /** The whole turn: without a storage error a member is in `members_to_remove` exactly when it was proposed for
      removal while a member, and after every commit labelled at or above the label of its last proposal it was
      still in the group held at that point. */
  lemma TurnRemovals(db: Db, args: Args, f: Faults, d: Db, held: Option<Group>, deleted: bool, m: MemberInfo)
    requires Resolve(db, args, f) == Resolved(d, held, deleted) && !ProcessGroup(db, args, f).result.error
    ensures m in ProcessGroup(db, args, f).result.toRemove <==>
            held.Some? && exists i: nat ::
              && LastProposal(held.value.state.members, args.messages, m, i)
              && StaysThroughout(Begin(d, held, args.messages), args.group, args.messages, LatestEpoch(args.messages),
                                 f, m, args.messages[i].epoch)
  {
    var begin, latest := Begin(d, held, args.messages), LatestEpoch(args.messages);
    RemovalTracking(begin, args.group, args.messages, latest, f, m);
    assert m in ProcessGroup(db, args, f).result.toRemove <==>
           m in begin.toRemove && StaysThroughout(begin, args.group, args.messages, latest, f, m, begin.toRemove[m]);
    if held.Some? {
      var members := held.value.state.members;
      forall i: nat | LastProposal(members, args.messages, m, i)
        ensures m in begin.toRemove && begin.toRemove[m] == args.messages[i].epoch
      {
        RemovalsAreProposals(held, args.messages, m);
      }
      if m in begin.toRemove {
        RemovalsAreProposals(held, args.messages, m);
        var i := LastProposalExists(members, args.messages, m);
      }
    }
  }

  lemma {:induction false} LastProposalExists(members: set<string>, messages: seq<Message>, m: MemberInfo)
    returns (i: nat)
    requires exists i :: 0 <= i < |messages| && ProposesRemoval(members, messages[i], m)
    ensures LastProposal(members, messages, m, i)
  {
    var n := |messages| - 1;
    if ProposesRemoval(members, messages[n], m) {
      i := n;
    } else {
      var k :| 0 <= k < |messages| && ProposesRemoval(members, messages[k], m);
      assert messages[..n][k] == messages[k];
      i := LastProposalExists(members, messages[..n], m);
      assert forall j :: 0 <= j < n ==> messages[..n][j] == messages[j];
    }
  }

  /** Without welcomes and storage failures the group held is the one that follows the commits: a member is reported
      for removal exactly when its removal was proposed while it was a member, and every commit labelled at or above
      the last such proposal left it in the group. */
  lemma RemovalsWhileFollowing(db: Db, args: Args, f: Faults, d: Db, g: Group, m: MemberInfo)
    requires Quiet(f) && NoWelcome(args.messages)
    requires Resolve(db, args, f) == Resolved(d, Some(g), false) && g.id == args.group
    requires args.group in d.groups && d.groups[args.group] == g
    ensures var t := ProcessGroup(db, args, f);
            t.TurnDone? &&
            (m in t.result.toRemove <==>
               exists i: nat ::
                 && LastProposal(g.state.members, args.messages, m, i)
                 && LeftInFrom(g, args.messages, m, args.messages[i].epoch))
  {
    var _ := TurnFollows(db, args, f, d, g);
    TurnRemovals(db, args, f, d, Some(g), false, m);
    var begin, latest := Begin(d, Some(g), args.messages), LatestEpoch(args.messages);
    forall i: nat | i < |args.messages|
      ensures StaysThroughout(begin, args.group, args.messages, latest, f, m, args.messages[i].epoch) <==>
              LeftInFrom(g, args.messages, m, args.messages[i].epoch)
    {
      LeftInIsStaying(begin, g, args.messages, latest, f, m, args.messages[i].epoch);
    }
  }

  /** Every commit labelled at or above `epoch` left the member in the group. */
  ghost predicate LeftInFrom(g: Group, messages: seq<Message>, m: MemberInfo, epoch: nat) {
    forall j :: 0 <= j < |messages| && messages[j].kind == CommitKind && messages[j].epoch >= epoch ==>
      StillMember(m, Follow(g, messages[..j + 1]).state.members)
  }

  lemma LeftInIsStaying(r: Replay, g: Group, messages: seq<Message>, latest: nat, f: Faults, m: MemberInfo, epoch: nat)
    requires Quiet(f) && NoWelcome(messages) && !r.error && r.held == Some(g) && g.id in r.groups && r.groups[g.id] == g
    ensures StaysThroughout(r, g.id, messages, latest, f, m, epoch) <==> LeftInFrom(g, messages, m, epoch)
  {
    forall j | 0 <= j < |messages|
      ensures StaysAt(r, g.id, messages, latest, f, m, epoch, j) <==>
              (messages[j].kind == CommitKind && messages[j].epoch >= epoch ==>
                 StillMember(m, Follow(g, messages[..j + 1]).state.members))
    {
      var part := messages[..j + 1];
      var n := ReplayFollows(r, g, part, latest, f);
      assert part[..n] == part;
    }
  }

  // ---------------------------------------------------------------- re-adds

  /** Message `i` is a re-add of this member, labelled above the highest commit label, and reached. */
  predicate ReaddedAt(r: Replay, id: GroupId, messages: seq<Message>, latest: nat, f: Faults, m: MemberInfo, i: nat)
    requires i < |messages|
  {
    && IsReadd(messages[i], latest) && ReaddInfo(messages[i], messages[i].custom.value) == m
    && !ReplayAll(r, id, messages[..i], latest, f).error
  }

  /** The whole turn: a member is in `members_to_readd` exactly when some message proposes to add it again, is labelled
      above every commit of the batch, and comes before any storage error. */
  lemma TurnReadds(db: Db, args: Args, f: Faults, d: Db, held: Option<Group>, deleted: bool, m: MemberInfo)
    requires Resolve(db, args, f) == Resolved(d, held, deleted)
    ensures m in ProcessGroup(db, args, f).result.toReadd <==>
            exists i: nat ::
              && i < |args.messages| && ProposesReadd(args.messages[i], m) && AboveAllCommits(args.messages, i)
              && Reached(d, held, args, f, i)
  {
    var latest := LatestEpoch(args.messages);
    var begin := Begin(d, held, args.messages);
    ReaddsAreProposals(begin, args.group, args.messages, latest, f, m);
    forall i: nat | i < |args.messages|
      ensures ReaddedAt(begin, args.group, args.messages, latest, f, m, i) <==>
              && ProposesReadd(args.messages[i], m) && AboveAllCommits(args.messages, i) && Reached(d, held, args, f, i)
    {
      ReaddLaw(args.messages[i], latest, m);
      AboveIsAboveLatest(args.messages, i);
    }
  }

  /** No storage error was recorded before message `i`. */
  predicate Reached(d: Db, held: Option<Group>, args: Args, f: Faults, i: nat)
    requires i <= |args.messages|
  {
    !ReplayAll(Begin(d, held, args.messages), args.group, args.messages[..i], LatestEpoch(args.messages), f).error
  }

  lemma AboveIsAboveLatest(messages: seq<Message>, i: nat)
    requires i < |messages|
    ensures AboveAllCommits(messages, i) <==> messages[i].epoch > LatestEpoch(messages)
  {
    LatestIsHighestCommitLabel(messages);
  }

  /** The members to re-add are exactly those of the re-add proposals labelled above the highest commit label and
      reached before any storage error. */
  lemma {:induction false} ReaddsAreProposals(r: Replay, id: GroupId, messages: seq<Message>, latest: nat, f: Faults,
                                              m: MemberInfo)
    requires r.toReadd == {}
    ensures m in ReplayAll(r, id, messages, latest, f).toReadd <==>
            exists i :: 0 <= i < |messages| && ReaddedAt(r, id, messages, latest, f, m, i)
  {
    if messages != [] {
      var n := |messages| - 1;
      var init := messages[..n];
      ReaddsAreProposals(r, id, init, latest, f, m);
      forall i | 0 <= i < n
        ensures ReaddedAt(r, id, init, latest, f, m, i) <==> ReaddedAt(r, id, messages, latest, f, m, i)
      {
        assert init[..i] == messages[..i];
      }
      ReaddStep(r, id, messages, latest, f, m);
    }
  }

  lemma ReaddStep(r: Replay, id: GroupId, messages: seq<Message>, latest: nat, f: Faults, m: MemberInfo)
    requires messages != []
    ensures var n := |messages| - 1;
            m in ReplayAll(r, id, messages, latest, f).toReadd <==>
            m in ReplayAll(r, id, messages[..n], latest, f).toReadd || ReaddedAt(r, id, messages, latest, f, m, n)
  {
  }

  lemma {:induction false} LatestIsHighestCommitLabel(messages: seq<Message>)
    ensures forall i :: 0 <= i < |messages| && messages[i].kind == CommitKind ==>
              messages[i].epoch <= LatestEpoch(messages)
    ensures LatestEpoch(messages) == 0 ||
            exists i ::
              0 <= i < |messages| && messages[i].kind == CommitKind && messages[i].epoch == LatestEpoch(messages)
  {
    if messages != [] {
      var n := |messages| - 1;
      LatestIsHighestCommitLabel(messages[..n]);
      assert forall i :: 0 <= i < n ==> messages[..n][i] == messages[i];
      if LatestEpoch(messages) != LatestEpoch(messages[..n]) {
        assert messages[n].epoch == LatestEpoch(messages);
      }
    }
  }

  /** A recorded error withdraws every removal. */
  lemma {:induction false} ErrorsWithdrawRemovals(r: Replay, id: GroupId, messages: seq<Message>, latest: nat,
                                                  f: Faults)
    requires !r.error && ReplayAll(r, id, messages, latest, f).error
    ensures ReplayAll(r, id, messages, latest, f).toRemove == map[]
  {
    var n := |messages| - 1;
    if ReplayAll(r, id, messages[..n], latest, f).error {
      ErrorsWithdrawRemovals(r, id, messages[..n], latest, f);
    }
  }

  /** A group result with an error reports no removals. */
  lemma ErrorResultHasNoRemovals(db: Db, args: Args, f: Faults)
    requires ProcessGroup(db, args, f).TurnDone? && ProcessGroup(db, args, f).result.error
    ensures ProcessGroup(db, args, f).result.toRemove == {}
  {
    var Resolved(d, held, _) := Resolve(db, args, f);
    ErrorsWithdrawRemovals(Begin(d, held, args.messages), args.group, args.messages, LatestEpoch(args.messages), f);
  }
}
