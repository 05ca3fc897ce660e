/** Whole turns and whole calls of the reconciler: what can come of a turn, created groups, welcomes, storage
    errors, and how the turns of a call stay out of each other's way. */
module ReconcileTurns {
  import opened Common
  import opened Reconcile
  import opened ReconcileNames
  import opened ReconcileLaws
  import opened ReconcileMembers

  // ---------------------------------------------------------------- what can come of a turn

  /** The group loads but its own identity does not. */
  predicate Unreadable(db: Db, args: Args, f: Faults) {
    !f.load && args.group in db.groups && db.groups[args.group].own.None?
  }

  /** The group loads with its identity, but its status cannot be read or its pending operation not be settled. */
  predicate Unsettled(db: Db, args: Args, f: Faults) {
    && !f.load && args.group in db.groups && db.groups[args.group].own.Some?
    && (f.statusRead || (f.resolve && Settles(db, args)))
  }

  /** A turn is passed over exactly for an unreadable identity and fails exactly when settling does; otherwise it has
      a result for its group. */
  lemma TurnOutcomes(db: Db, args: Args, f: Faults)
    ensures ProcessGroup(db, args, f).TurnSkipped? <==> Unreadable(db, args, f)
    ensures ProcessGroup(db, args, f).TurnError? <==> Unsettled(db, args, f)
    ensures ProcessGroup(db, args, f).TurnDone? ==> ProcessGroup(db, args, f).result.group == args.group
  {
  }

  /** A group that is not stored, or does not load, takes no part in its turn unless a welcome brings it. */
  lemma UnloadedTurnChangesNothing(db: Db, args: Args, f: Faults)
    requires (f.load || args.group !in db.groups) && NoWelcome(args.messages)
    ensures var t := ProcessGroup(db, args, f);
            t.TurnDone? && t.db == db && t.result.toRemove == {} && !t.result.error && !t.deleted
  {
    NothingHeld(Begin(db, None, args.messages), args.group, args.messages, LatestEpoch(args.messages), f);
  }

  // ---------------------------------------------------------------- created groups and operations left alone

  /** Nothing to settle: the turn only follows the commits, and the status stays. */
  lemma UnsettledTurnFollows(db: Db, args: Args, f: Faults, g: Group, op: Op)
    requires Quiet(f) && NoWelcome(args.messages) && Stored(db, args, g, op) && g.own.Some? && !Settles(db, args)
    ensures var t := ProcessGroup(db, args, f);
            && t.TurnDone? && !t.deleted && t.db.status == db.status
            && args.group in t.db.groups && t.db.groups[args.group] == Follow(g, args.messages)
  {
    var _ := TurnFollows(db, args, f, db, g);
  }

  /** A created group. At epoch 0 the server confirms it by its tree hash, later by the client's commit in the slot:
      confirmed, it is stored merged and follows the commits; otherwise it is deleted and listed. At epoch 0 with the
      server already past it, it is left as it is. */
  lemma CreateGroupConverges(db: Db, args: Args, f: Faults, g: Group, own: string)
    requires Quiet(f) && NoWelcome(args.messages) && Stored(db, args, g, CreateGroup) && g.own == Some(own)
    ensures var t := ProcessGroup(db, args, f);
            var confirmed := if g.state.epoch == 0 then g.state.treeHash == args.pendingTreeHash
                             else SlotNames(args.messages, g.state.epoch + 1, own);
            var merged := Group(g.id, if g.pending.Staged? then g.pending.child else g.state, g.own, NoPending);
            && t.TurnDone?
            && (g.state.epoch == 0 && args.pendingEpoch != 0 ==>
                  && !t.deleted && t.db.status == db.status
                  && args.group in t.db.groups && t.db.groups[args.group] == Follow(g, args.messages))
            && (g.state.epoch > 0 || args.pendingEpoch == 0 ==>
                  && (t.deleted <==> !confirmed)
                  && (t.deleted ==> args.group !in t.db.groups)
                  && (!t.deleted ==>
                        args.group in t.db.groups && t.db.groups[args.group] == Follow(merged, args.messages)))
  {
    if !Settles(db, args) {
      UnsettledTurnFollows(db, args, f, g, CreateGroup);
    } else {
      SlotLaw(args.messages, g.state.epoch + 1, own);
      var r := Resolve(db, args, f);
      if r.held.Some? {
        var _ := TurnFollows(db, args, f, r.db, r.held.value);
      } else {
        NothingHeld(Begin(r.db, None, args.messages), args.group, args.messages, LatestEpoch(args.messages), f);
      }
    }
  }

  // ---------------------------------------------------------------- welcomes

  /** A welcome that works: its group is stored and held from then on. One that does not changes nothing. */
  lemma WelcomeIsHeld(r: Replay, id: GroupId, messages: seq<Message>, latest: nat, f: Faults, i: nat)
    requires i < |messages| && messages[i].kind == Welcome && !ReplayAll(r, id, messages[..i], latest, f).error
    ensures var before := ReplayAll(r, id, messages[..i], latest, f);
            var after := ReplayAll(r, id, messages[..i + 1], latest, f);
            match messages[i].welcome
            case Some(g) =>
              if f.welcome(i) then after == before
              else after.held == Some(g) && after.groups == before.groups[g.id := g] && !after.error
            case None => after == before
  {
    ReplaySnoc(r, id, messages, latest, f, i);
  }

  /** Before the first commit the group is loaded afresh: whatever is held, the commit is offered to the stored one. */
  lemma FirstCommitReloads(r: Replay, id: GroupId, msg: Message, latest: nat, f: Faults, i: nat)
    requires !r.error && r.held.Some? && !r.loaded && id in r.groups && msg.kind == CommitKind
    requires f.reload(i) == LoadOk && !f.commit(i)
    ensures var s := StepMessage(r, id, msg, latest, f, i);
            s.held == Some(Offer(r.groups[id], msg)) && s.loaded && !s.error
  {
  }

  /** Joining by welcome: after the last welcome that works, if no storage failure came before it, the turn stores the
      welcomed group as it follows the commits behind it, all of them or those before the failure that is then
      recorded. */
  lemma WelcomeJoins(db: Db, args: Args, f: Faults, d: Db, held: Option<Group>, deleted: bool, i: nat, g: Group)
    returns (n: nat)
    requires Resolve(db, args, f) == Resolved(d, held, deleted)
    requires i < |args.messages| && args.messages[i].kind == Welcome && args.messages[i].welcome == Some(g)
    requires g.id == args.group && !f.welcome(i) && NoWelcome(args.messages[i + 1..]) && Reached(d, held, args, f, i)
    ensures n <= |args.messages| - i - 1
    ensures var t := ProcessGroup(db, args, f);
            && t.TurnDone? && (t.result.error <==> n < |args.messages| - i - 1)
            && args.group in t.db.groups && t.db.groups[args.group] == Follow(g, args.messages[i + 1..][..n])
  {
    var begin, latest := Begin(d, held, args.messages), LatestEpoch(args.messages);
    var pre, post := args.messages[..i + 1], args.messages[i + 1..];
    WelcomeIsHeld(begin, args.group, args.messages, latest, f, i);
    assert pre + post == args.messages;
    ReplaySplits(begin, args.group, pre, post, latest, f);
    n := FollowsFrom(ReplayAll(begin, args.group, pre, latest, f), g, post, latest, f, i + 1);
  }

  /** Without storage failures no welcome and no commit is ever missed. */
  lemma {:induction false} QuietIsReached(r: Replay, id: GroupId, messages: seq<Message>, latest: nat, f: Faults)
    requires Quiet(f) && !r.error
    ensures !ReplayAll(r, id, messages, latest, f).error
  {
    if messages != [] {
      QuietIsReached(r, id, messages[..|messages| - 1], latest, f);
    }
  }

  /** So in a quiet turn the invited client ends with the welcomed group and everything after it. */
  lemma QuietWelcomeJoins(db: Db, args: Args, f: Faults, d: Db, held: Option<Group>, deleted: bool, i: nat, g: Group)
    requires Quiet(f) && Resolve(db, args, f) == Resolved(d, held, deleted)
    requires i < |args.messages| && args.messages[i].kind == Welcome && args.messages[i].welcome == Some(g)
    requires g.id == args.group && !f.welcome(i) && NoWelcome(args.messages[i + 1..])
    ensures var t := ProcessGroup(db, args, f);
            && t.TurnDone? && !t.result.error
            && args.group in t.db.groups && t.db.groups[args.group] == Follow(g, args.messages[i + 1..])
  {
    var begin, latest := Begin(d, held, args.messages), LatestEpoch(args.messages);
    QuietIsReached(begin, args.group, args.messages[..i], latest, f);
    QuietIsReached(begin, args.group, args.messages, latest, f);
    var post := args.messages[i + 1..];
    var n := WelcomeJoins(db, args, f, d, held, deleted, i, g);
    assert post[..n] == post;
  }

  // ---------------------------------------------------------------- storage errors

  /** Commit number `i` of the batch finds the group loaded afresh by an earlier one. */
  ghost predicate LoadedBefore(messages: seq<Message>, f: Faults, i: nat) {
    exists j: nat :: j < i && j < |messages| && messages[j].kind == CommitKind && f.reload(j) == LoadOk
  }

  /** Storage fails message `i`: a commit that cannot be stored, or the load before the first one. */
  ghost predicate FailsAt(messages: seq<Message>, f: Faults, i: nat) {
    && i < |messages| && messages[i].kind == CommitKind
    && (f.commit(i) || (f.reload(i) == LoadStorage && !LoadedBefore(messages, f, i)))
  }

  /** An error is recorded exactly if storage fails some commit or the load before it, and the group is then the
      one that followed the commits before the first of these. */
  lemma {:induction false} ErrorLaw(r: Replay, g: Group, messages: seq<Message>, latest: nat, f: Faults)
    requires NoWelcome(messages) && !r.loaded
    requires !r.error && r.held == Some(g) && g.id in r.groups && r.groups[g.id] == g
    ensures var s := ReplayAll(r, g.id, messages, latest, f);
            && (s.error <==> exists i: nat :: FailsAt(messages, f, i))
            && (!s.error ==> (s.loaded <==> LoadedBefore(messages, f, |messages|)))
  {
    if messages != [] {
      var n := |messages| - 1;
      var init := messages[..n];
      ErrorLaw(r, g, init, latest, f);
      var _ := ReplayFollows(r, g, init, latest, f);
      var before := ReplayAll(r, g.id, init, latest, f);
      forall i: nat | i < n
        ensures FailsAt(init, f, i) <==> FailsAt(messages, f, i)
      {
        LoadedEarlier(messages, f, i);
      }
      LoadedEarlier(messages, f, n);
      if before.error {
        var i: nat :| FailsAt(init, f, i);
        assert FailsAt(messages, f, i);
      } else {
        ErrorStep(before, g.id, messages, latest, f);
      }
    }
  }

  lemma LoadedEarlier(messages: seq<Message>, f: Faults, i: nat)
    requires messages != [] && i < |messages|
    ensures LoadedBefore(messages[..|messages| - 1], f, i) <==> LoadedBefore(messages, f, i)
    ensures LoadedBefore(messages, f, |messages|) <==>
            || LoadedBefore(messages, f, |messages| - 1)
            || (messages[|messages| - 1].kind == CommitKind && f.reload(|messages| - 1) == LoadOk)
  {
    var n := |messages| - 1;
    assert forall j :: 0 <= j < n ==> messages[..n][j] == messages[j];
    if LoadedBefore(messages, f, i) {
      var j: nat :| j < i && messages[j].kind == CommitKind && f.reload(j) == LoadOk;
      assert messages[..n][j] == messages[j];
    }
  }

  lemma ErrorStep(before: Replay, id: GroupId, messages: seq<Message>, latest: nat, f: Faults)
    requires messages != [] && messages[|messages| - 1].kind != Welcome
    requires !before.error && before.held.Some? && id in before.groups
    requires before.loaded <==> LoadedBefore(messages, f, |messages| - 1)
    ensures var n := |messages| - 1;
            var after := StepMessage(before, id, messages[n], latest, f, n);
            && (after.error <==> FailsAt(messages, f, n))
            && (!after.error ==>
                  (after.loaded <==> before.loaded || (messages[n].kind == CommitKind && f.reload(n) == LoadOk)))
  {
  }

  /** The error of a whole turn, and where the group stands then. */
  lemma TurnErrorIff(db: Db, args: Args, f: Faults, d: Db, g: Group)
    requires NoWelcome(args.messages)
    requires Resolve(db, args, f) == Resolved(d, Some(g), false) && g.id == args.group
    requires args.group in d.groups && d.groups[args.group] == g
    ensures var t := ProcessGroup(db, args, f);
            && t.TurnDone? && (t.result.error <==> exists i: nat :: FailsAt(args.messages, f, i))
            && args.group in t.db.groups
            && forall i: nat ::
                 FailsAt(args.messages, f, i) && (forall j: nat :: j < i ==> !FailsAt(args.messages, f, j)) ==>
                 t.db.groups[args.group] == Follow(g, args.messages[..i])
  {
    var begin, latest := Begin(d, Some(g), args.messages), LatestEpoch(args.messages);
    ErrorLaw(begin, g, args.messages, latest, f);
    var _ := TurnFollows(db, args, f, d, g);
    forall i: nat | FailsAt(args.messages, f, i) && (forall j: nat :: j < i ==> !FailsAt(args.messages, f, j))
      ensures ProcessGroup(db, args, f).db.groups[args.group] == Follow(g, args.messages[..i])
    {
      StopsAtFailure(begin, g, args.messages, latest, f, i);
    }
  }

  /** The pass stops at the first failure. */
  lemma StopsAtFailure(r: Replay, g: Group, messages: seq<Message>, latest: nat, f: Faults, i: nat)
    requires NoWelcome(messages) && !r.loaded
    requires !r.error && r.held == Some(g) && g.id in r.groups && r.groups[g.id] == g
    requires FailsAt(messages, f, i) && forall j: nat :: j < i ==> !FailsAt(messages, f, j)
    ensures ReplayAll(r, g.id, messages, latest, f).groups == r.groups[g.id := Follow(g, messages[..i])]
  {
    var part := messages[..i];
    ErrorLaw(r, g, part, latest, f);
    ErrorLaw(r, g, messages[..i + 1], latest, f);
    FailsAtPrefix(messages, f, i + 1, i);
    forall j: nat | j < i
      ensures !FailsAt(part, f, j)
    {
      FailsAtPrefix(messages, f, i, j);
    }
    var n := ReplayFollows(r, g, part, latest, f);
    assert part[..n] == part;
    ReplaySnoc(r, g.id, messages, latest, f, i);
    MessageFollows(ReplayAll(r, g.id, part, latest, f), g.id, Follow(g, part), messages[i], latest, f, i);
    ErrorIsFinal(r, g.id, messages, latest, f, i + 1);
  }

  lemma FailsAtPrefix(messages: seq<Message>, f: Faults, n: nat, i: nat)
    requires i < n <= |messages|
    ensures FailsAt(messages[..n], f, i) <==> FailsAt(messages, f, i)
  {
    assert forall j :: 0 <= j < n ==> messages[..n][j] == messages[j];
    if LoadedBefore(messages, f, i) {
      var j: nat :| j < i && j < |messages| && messages[j].kind == CommitKind && f.reload(j) == LoadOk;
      assert messages[..n][j] == messages[j];
    }
  }

  // ---------------------------------------------------------------- turns stay out of each other's way

  /** The stored groups are filed under their own ids. */
  ghost predicate Keyed(db: Db) {
    forall id :: id in db.groups ==> db.groups[id].id == id
  }

  /** The welcomes of the batch are for its group. */
  ghost predicate OwnWelcomes(args: Args) {
    forall i :: 0 <= i < |args.messages| ==> OwnWelcome(args.messages[i], args.group)
  }

  predicate OwnWelcome(msg: Message, id: GroupId) {
    msg.kind == Welcome && msg.welcome.Some? ==> msg.welcome.value.id == id
  }

  function Find(groups: map<GroupId, Group>, id: GroupId): Option<Group> {
    if id in groups then Some(groups[id]) else None
  }

  /** What is stored about a group is the same in both. */
  predicate SameFor(a: Db, b: Db, id: GroupId) {
    Find(a.groups, id) == Find(b.groups, id) && StatusOf(a, id) == StatusOf(b, id)
  }

  /** In the middle of a pass: what is held and stored is the group's own. */
  predicate Own(r: Replay, id: GroupId) {
    (r.held.Some? ==> r.held.value.id == id) && (id in r.groups ==> r.groups[id].id == id)
  }

  lemma {:induction false} ReplayStays(r: Replay, id: GroupId, messages: seq<Message>, latest: nat, f: Faults)
    requires Own(r, id) && forall i :: 0 <= i < |messages| ==> OwnWelcome(messages[i], id)
    ensures var s := ReplayAll(r, id, messages, latest, f);
            Own(s, id) && forall other :: other != id ==> Find(s.groups, other) == Find(r.groups, other)
  {
    if messages != [] {
      var n := |messages| - 1;
      ReplayStays(r, id, messages[..n], latest, f);
      StepStays(ReplayAll(r, id, messages[..n], latest, f), id, messages[n], latest, f, n);
    }
  }

  lemma StepStays(r: Replay, id: GroupId, msg: Message, latest: nat, f: Faults, i: nat)
    requires Own(r, id) && OwnWelcome(msg, id)
    ensures var s := StepMessage(r, id, msg, latest, f, i);
            Own(s, id) && (s.groups == r.groups || (s.held.Some? && s.groups == r.groups[id := s.held.value]))
  {
  }

  /** Two passes that differ at most in what is stored about other groups. */
  predicate Alike(r: Replay, s: Replay, id: GroupId) {
    && Find(r.groups, id) == Find(s.groups, id)
    && r.(groups := map[]) == s.(groups := map[])
  }

  lemma {:induction false} ReplayAlike(r: Replay, s: Replay, id: GroupId, messages: seq<Message>, latest: nat,
                                       f: Faults)
    requires Own(r, id) && Alike(r, s, id) && forall i :: 0 <= i < |messages| ==> OwnWelcome(messages[i], id)
    ensures Alike(ReplayAll(r, id, messages, latest, f), ReplayAll(s, id, messages, latest, f), id)
  {
    if messages != [] {
      var n := |messages| - 1;
      ReplayAlike(r, s, id, messages[..n], latest, f);
      ReplayStays(r, id, messages[..n], latest, f);
      StepAlike(ReplayAll(r, id, messages[..n], latest, f), ReplayAll(s, id, messages[..n], latest, f), id, messages[n],
                latest, f, n);
    }
  }

  lemma StepAlike(r: Replay, s: Replay, id: GroupId, msg: Message, latest: nat, f: Faults, i: nat)
    requires Own(r, id) && Alike(r, s, id) && OwnWelcome(msg, id)
    ensures Alike(StepMessage(r, id, msg, latest, f, i), StepMessage(s, id, msg, latest, f, i), id)
  {
    if !r.error && msg.kind == CommitKind {
      CommitAlike(r, s, id, msg, f.reload(i), f.commit(i));
    }
  }

  lemma CommitAlike(r: Replay, s: Replay, id: GroupId, msg: Message, reload: LoadFault, fails: bool)
    requires Own(r, id) && Alike(r, s, id)
    ensures Alike(StepCommit(r, id, msg, reload, fails), StepCommit(s, id, msg, reload, fails), id)
  {
    var r', s' := Reload(r, id, reload), Reload(s, id, reload);
    assert Own(r', id) && Alike(r', s', id);
  }

  /** A turn changes nothing stored about other groups. */
  lemma TurnStaysInItsGroup(db: Db, args: Args, f: Faults)
    requires Keyed(db) && OwnWelcomes(args) && ProcessGroup(db, args, f).TurnDone?
    ensures var t := ProcessGroup(db, args, f);
            Keyed(t.db) && forall other :: other != args.group ==> SameFor(t.db, db, other)
  {
    var r := Resolve(db, args, f);
    var t := ProcessGroup(db, args, f);
    ResolveReadsItsGroup(db, db, args, f);
    ReplayStays(Begin(r.db, r.held, args.messages), args.group, args.messages, LatestEpoch(args.messages), f);
    ResolveStays(db, args, f);
    forall id | id in t.db.groups
      ensures t.db.groups[id].id == id
    {
      if id != args.group {
        assert Find(t.db.groups, id) == Find(r.db.groups, id) == Find(db.groups, id);
      }
    }
  }

  lemma ResolveStays(db: Db, args: Args, f: Faults)
    requires Resolve(db, args, f).Resolved?
    ensures forall other :: other != args.group ==> SameFor(Resolve(db, args, f).db, db, other)
  {
  }

  /** What comes of a turn depends on nothing stored about other groups. */
  lemma TurnReadsItsGroup(a: Db, b: Db, args: Args, f: Faults)
    requires Keyed(a) && OwnWelcomes(args) && SameFor(a, b, args.group)
    ensures var t, u := ProcessGroup(a, args, f), ProcessGroup(b, args, f);
            && (t.TurnError? <==> u.TurnError?) && (t.TurnSkipped? <==> u.TurnSkipped?)
            && (t.TurnDone? ==> t.result == u.result && t.deleted == u.deleted && SameFor(t.db, u.db, args.group))
  {
    var r, s := Resolve(a, args, f), Resolve(b, args, f);
    ResolveReadsItsGroup(a, b, args, f);
    if r.Resolved? {
      var latest := LatestEpoch(args.messages);
      ReplayAlike(Begin(r.db, r.held, args.messages), Begin(s.db, s.held, args.messages), args.group, args.messages,
                  latest, f);
    }
  }

  lemma ResolveReadsItsGroup(a: Db, b: Db, args: Args, f: Faults)
    requires Keyed(a) && SameFor(a, b, args.group)
    ensures var r, s := Resolve(a, args, f), Resolve(b, args, f);
            && (r.Error? <==> s.Error?) && (r.Skip? <==> s.Skip?)
            && (r.Resolved? ==> r.held == s.held && r.deleted == s.deleted && SameFor(r.db, s.db, args.group))
            && (r.Resolved? && r.held.Some? ==> r.held.value.id == args.group)
            && (r.Resolved? && args.group in r.db.groups ==> r.db.groups[args.group].id == args.group)
  {
  }

  /** The turn of one input, were it the only one. */
  function Alone(db: Db, one: (Args, Faults)): Turn {
    ProcessGroup(db, one.0, one.1)
  }

  function AloneResults(db: Db, input: seq<(Args, Faults)>): seq<GroupResult> {
    if input == [] then [] else
    var t := Alone(db, input[|input| - 1]);
    AloneResults(db, input[..|input| - 1]) + if t.TurnDone? then [t.result] else []
  }

  function AloneDeleted(db: Db, input: seq<(Args, Faults)>): seq<GroupId> {
    if input == [] then [] else
    var t := Alone(db, input[|input| - 1]);
    AloneDeleted(db, input[..|input| - 1]) + if t.TurnDone? && t.deleted then [input[|input| - 1].0.group] else []
  }

  ghost predicate Independent(input: seq<(Args, Faults)>) {
    && (forall i :: 0 <= i < |input| ==> OwnWelcomes(input[i].0))
    && (forall i, j :: 0 <= i < j < |input| ==> input[i].0.group != input[j].0.group)
  }

  /** What is stored about a group after the call: as its own turn alone would leave it, or as before. */
  ghost predicate AsAlone(db: Db, after: Db, one: (Args, Faults)) {
    SameFor(after, if Alone(db, one).TurnDone? then Alone(db, one).db else db, one.0.group)
  }

  predicate Uncalled(input: seq<(Args, Faults)>, id: GroupId) {
    forall i :: 0 <= i < |input| ==> input[i].0.group != id
  }

  /** Every group called for is as its turn alone would leave it, every other one as before. */
  ghost predicate AllAsAlone(db: Db, after: Db, input: seq<(Args, Faults)>) {
    && (forall i :: 0 <= i < |input| ==> AsAlone(db, after, input[i]))
    && (forall id :: Uncalled(input, id) ==> SameFor(after, db, id))
  }

  predicate SomeFails(db: Db, input: seq<(Args, Faults)>) {
    exists i :: 0 <= i < |input| && Alone(db, input[i]).TurnError?
  }

  /** A call for several groups does for each what a call for it alone would do: it fails exactly if one of these would,
      and otherwise reports the same results and deletions, in input order, and stores the same. Groups it was not
      called for are untouched. */
  lemma {:induction false} TurnsAreIndependent(db: Db, input: seq<(Args, Faults)>)
    requires Keyed(db) && Independent(input)
    ensures var b := ProcessAll(db, input);
            && Keyed(b.db) && (b.failed <==> SomeFails(db, input))
            && (!b.failed ==>
                  && b.results == AloneResults(db, input) && b.deleted == AloneDeleted(db, input)
                  && AllAsAlone(db, b.db, input))
  {
    if input != [] {
      var n := |input| - 1;
      var init, one := input[..n], input[n];
      assert input == init + [one];
      IndependentInit(init, one);
      TurnsAreIndependent(db, init);
      SomeFailsSnoc(db, init, one);
      var before := ProcessAll(db, init);
      if !before.failed {
        TurnReadsItsGroup(before.db, db, one.0, one.1);
        if Alone(before.db, one).TurnDone? {
          TurnStaysInItsGroup(before.db, one.0, one.1);
          OneMoreAsAlone(db, before.db, Alone(before.db, one).db, init, one);
        } else {
          OneMoreAsAlone(db, before.db, before.db, init, one);
        }
      }
    }
  }

  /** A call that fails stops at the first turn that would fail alone, with the turns before it done. */
  lemma {:induction false} FailedCallStops(db: Db, input: seq<(Args, Faults)>) returns (n: nat)
    requires Keyed(db) && Independent(input) && ProcessAll(db, input).failed
    ensures n < |input| && Alone(db, input[n]).TurnError? && !SomeFails(db, input[..n])
    ensures var b := ProcessAll(db, input);
            && b.results == AloneResults(db, input[..n]) && b.deleted == AloneDeleted(db, input[..n])
            && AllAsAlone(db, b.db, input[..n])
  {
    var last := |input| - 1;
    var init := input[..last];
    assert input == init + [input[last]];
    IndependentInit(init, input[last]);
    TurnsAreIndependent(db, init);
    if ProcessAll(db, init).failed {
      n := FailedCallStops(db, init);
      assert init[..n] == input[..n];
    } else {
      n := last;
      TurnReadsItsGroup(ProcessAll(db, init).db, db, input[last].0, input[last].1);
    }
  }

  lemma IndependentInit(init: seq<(Args, Faults)>, one: (Args, Faults))
    requires Independent(init + [one])
    ensures Independent(init) && OwnWelcomes(one.0) && Uncalled(init, one.0.group)
  {
    var input := init + [one];
    assert forall i :: 0 <= i < |init| ==> init[i] == input[i];
    assert input[|init|] == one;
  }

  lemma SomeFailsSnoc(db: Db, init: seq<(Args, Faults)>, one: (Args, Faults))
    ensures SomeFails(db, init + [one]) <==> SomeFails(db, init) || Alone(db, one).TurnError?
  {
    var input := init + [one];
    assert forall i :: 0 <= i < |init| ==> init[i] == input[i];
    assert input[|init|] == one;
    if SomeFails(db, init) {
      var i :| 0 <= i < |init| && Alone(db, init[i]).TurnError?;
      assert Alone(db, input[i]).TurnError?;
    }
  }

  /** One turn more: it changes its own group only, to what its turn alone would make of it. */
  lemma OneMoreAsAlone(db: Db, before: Db, after: Db, init: seq<(Args, Faults)>, one: (Args, Faults))
    requires AllAsAlone(db, before, init) && Uncalled(init, one.0.group) && AsAlone(db, after, one)
    requires forall other :: other != one.0.group ==> SameFor(after, before, other)
    ensures AllAsAlone(db, after, init + [one])
  {
    var input := init + [one];
    forall i | 0 <= i < |input|
      ensures AsAlone(db, after, input[i])
    {
      if i < |init| {
        assert AsAlone(db, before, init[i]) && init[i].0.group != one.0.group;
        assert SameFor(after, before, init[i].0.group);
      }
    }
    forall id | Uncalled(input, id)
      ensures SameFor(after, db, id)
    {
      assert input[|init|].0.group != id;
      assert forall i :: 0 <= i < |init| ==> init[i] == input[i];
      assert SameFor(after, before, id) && Uncalled(init, id);
    }
  }

  // ---------------------------------------------------------------- results

  /** The groups of the input that are not passed over, in order. */
  function Attended(db: Db, input: seq<(Args, Faults)>): seq<GroupId> {
    if input == [] then [] else
    var n := |input| - 1;
    Attended(db, input[..n]) +
      if Unreadable(ProcessAll(db, input[..n]).db, input[n].0, input[n].1) then [] else [input[n].0.group]
  }

  function ResultIds(results: seq<GroupResult>): seq<GroupId> {
    seq(|results|, i requires 0 <= i < |results| => results[i].group)
  }

  /** A call that succeeds reports once per input group, in order, except groups with an unreadable own identity. */
  lemma {:induction false} OneResultPerGroup(db: Db, input: seq<(Args, Faults)>)
    requires !ProcessAll(db, input).failed
    ensures ResultIds(ProcessAll(db, input).results) == Attended(db, input)
  {
    if input != [] {
      OneResultPerGroup(db, input[..|input| - 1]);
    }
  }

  /** Input `i` was reached, and settling its pending operation dropped the group. */
  predicate DroppedAt(db: Db, input: seq<(Args, Faults)>, id: GroupId, i: nat)
    requires i < |input|
  {
    var before := ProcessAll(db, input[..i]);
    !before.failed && input[i].0.group == id && Drops(before.db, input[i].0, input[i].1)
  }

  predicate Drops(db: Db, args: Args, f: Faults) {
    Resolve(db, args, f).Resolved? && Resolve(db, args, f).deleted
  }

  /** The deleted groups are exactly those that settling dropped. */
  lemma {:induction false} DeletedWereDropped(db: Db, input: seq<(Args, Faults)>, id: GroupId)
    ensures id in ProcessAll(db, input).deleted <==> exists i :: 0 <= i < |input| && DroppedAt(db, input, id, i)
  {
    if input != [] {
      var n := |input| - 1;
      DeletedWereDropped(db, input[..n], id);
      forall i | 0 <= i < n
        ensures DroppedAt(db, input[..n], id, i) <==> DroppedAt(db, input, id, i)
      {
        assert input[..n][..i] == input[..i];
      }
      DeletedStep(db, input, id);
    }
  }

  lemma DeletedStep(db: Db, input: seq<(Args, Faults)>, id: GroupId)
    requires input != []
    ensures var n := |input| - 1;
            id in ProcessAll(db, input).deleted <==>
            id in ProcessAll(db, input[..n]).deleted || DroppedAt(db, input, id, n)
  {
  }
}
