/** What the batch reconciler guarantees about the group: settling, convergence with the server's log, and replay. */
module ReconcileLaws {
  import opened Common
  import opened Reconcile
  import opened ReconcileNames

  // ---------------------------------------------------------------- following commits

  /** The group after offering it the commits of the messages in order; rejected ones change nothing. */
  function Follow(g: Group, messages: seq<Message>): Group {
    if messages == [] then g else Offer(Follow(g, messages[..|messages| - 1]), messages[|messages| - 1])
  }

  function Offer(g: Group, msg: Message): Group {
    if msg.kind == CommitKind && Apply(g, msg.blob).Some? then Apply(g, msg.blob).value else g
  }

  /** What becomes of a group that is offered a message as a commit: a commit from its own state by another member takes
      it on and drops what was staged, a stray proposal to it stages the reply if nothing else waits, and anything else
      leaves it as it is. */
  lemma OfferLaw(g: Group, msg: Message)
    ensures var member := g.own.Some? && g.own.value in g.state.members;
            Offer(g, msg) ==
              if msg.kind != CommitKind || !member then g else
              match msg.blob
              case Commit(parent, child, author) =>
                if parent == g.state && author != g.own.value then Group(g.id, child, g.own, NoPending) else g
              case StrayProposal(parent, reply) =>
                if parent == g.state && g.pending == NoPending then Group(g.id, g.state, g.own, Staged(reply)) else g
              case Garbage => g
  {
  }

  ghost predicate NoWelcome(messages: seq<Message>) {
    forall i :: 0 <= i < |messages| ==> messages[i].kind != Welcome
  }

  /** Storage neither fails a commit nor the reload before it. */
  ghost predicate Quiet(f: Faults) {
    !f.load && !f.statusRead && !f.resolve && forall i: nat :: f.reload(i) != LoadStorage && !f.commit(i)
  }

  /** Whatever storage does, the second pass follows the commits, in memory and in storage alike: all of them, or those
      before the storage failure that is then recorded. */
  lemma ReplayFollows(r: Replay, g: Group, messages: seq<Message>, latest: nat, f: Faults)
    returns (n: nat)
    requires NoWelcome(messages)
    requires !r.error && r.held == Some(g) && g.id in r.groups && r.groups[g.id] == g
    ensures n <= |messages|
    ensures var s, h := ReplayAll(r, g.id, messages, latest, f), Follow(g, messages[..n]);
            && (s.error <==> n < |messages|) && (Quiet(f) ==> !s.error)
            && s.held == Some(h) && h.id == g.id && h.own == g.own && s.groups == r.groups[g.id := h]
  {
    assert [] + messages == messages;
    ReplaySplits(r, g.id, [], messages, latest, f);
    n := FollowsFrom(r, g, messages, latest, f, 0);
  }

  /** From `s` to `t` the group became `h`, in memory and in storage, and nothing else was stored. */
  ghost predicate Became(s: Replay, t: Replay, id: GroupId, own: Option<string>, h: Group) {
    t.held == Some(h) && h.id == id && h.own == own && t.groups == s.groups[id := h]
  }

  /** The second pass taken up in the middle, at message number `k`. */
  function ReplayFrom(s: Replay, id: GroupId, messages: seq<Message>, latest: nat, f: Faults, k: nat): Replay {
    if messages == [] then s else
    var n := |messages| - 1;
    StepMessage(ReplayFrom(s, id, messages[..n], latest, f, k), id, messages[n], latest, f, k + n)
  }

  lemma {:induction false} ReplaySplits(r: Replay, id: GroupId, pre: seq<Message>, post: seq<Message>, latest: nat,
                                        f: Faults)
    ensures ReplayAll(r, id, pre + post, latest, f) ==
            ReplayFrom(ReplayAll(r, id, pre, latest, f), id, post, latest, f, |pre|)
    decreases |post|
  {
    if post == [] {
      assert pre + post == pre;
    } else {
      InitOfSum(pre, post);
      ReplaySplits(r, id, pre, post[..|post| - 1], latest, f);
    }
  }

  /** The same from any point at which this group is held and stored. */
  lemma {:induction false} FollowsFrom(s: Replay, g: Group, messages: seq<Message>, latest: nat, f: Faults, k: nat)
    returns (n: nat)
    requires NoWelcome(messages)
    requires !s.error && s.held == Some(g) && g.id in s.groups && s.groups[g.id] == g
    ensures n <= |messages|
    ensures var t := ReplayFrom(s, g.id, messages, latest, f, k);
            && (t.error <==> n < |messages|) && (Quiet(f) ==> !t.error)
            && Became(s, t, g.id, g.own, Follow(g, messages[..n]))
  {
    n := 0;
    if messages != [] {
      var m := |messages| - 1;
      n := FollowsFrom(s, g, messages[..m], latest, f, k);
      Prefixes(messages, n, m);
      var failed := FollowsOne(s, ReplayFrom(s, g.id, messages[..m], latest, f, k),
                               ReplayFrom(s, g.id, messages, latest, f, k), g.id, g, messages[..n], messages[m],
                               latest, f, k + m);
      n := if failed then n else m + 1;
    }
  }

  lemma FollowSnoc(g: Group, part: seq<Message>, msg: Message)
    ensures Follow(g, part + [msg]) == Offer(Follow(g, part), msg)
  {
    InitOfSum(part, [msg]);
    assert part + [msg][..0] == part;
  }

  lemma FollowsOne(s: Replay, before: Replay, after: Replay, id: GroupId, g: Group, part: seq<Message>, msg: Message,
                   latest: nat, f: Faults, i: nat)
    returns (failed: bool)
    requires Became(s, before, id, g.own, Follow(g, part)) && (Quiet(f) ==> !before.error) && msg.kind != Welcome
    requires after == StepMessage(before, id, msg, latest, f, i)
    ensures failed == after.error && (Quiet(f) ==> !failed) && (before.error ==> failed)
    ensures Became(s, after, id, g.own, if failed then Follow(g, part) else Follow(g, part + [msg]))
  {
    failed := after.error;
    if !before.error {
      MessageFollows(before, id, Follow(g, part), msg, latest, f, i);
      FollowSnoc(g, part, msg);
    }
  }

  /** One message: the group takes the commit if it can, or a failure leaves it as it is. */
  lemma MessageFollows(r: Replay, id: GroupId, h: Group, msg: Message, latest: nat, f: Faults, i: nat)
    requires !r.error && r.held == Some(h) && h.id == id && id in r.groups && r.groups[id] == h && msg.kind != Welcome
    ensures var s := StepMessage(r, id, msg, latest, f, i);
            && Offer(h, msg).id == id && Offer(h, msg).own == h.own
            && (Quiet(f) ==> !s.error)
            && s.held == Some(if s.error then h else Offer(h, msg)) && s.groups == r.groups[id := s.held.value]
  {
    if msg.kind == CommitKind {
      assert Reload(r, id, f.reload(i)).held == Some(h);
    }
  }

  function Commits(messages: seq<Message>): seq<Message> {
    if messages == [] then [] else
    Commits(messages[..|messages| - 1]) +
      if messages[|messages| - 1].kind == CommitKind then [messages[|messages| - 1]] else []
  }

  lemma {:induction false} CommitsAreCommits(messages: seq<Message>)
    ensures forall i :: 0 <= i < |Commits(messages)| ==> Commits(messages)[i].kind == CommitKind
  {
    if messages != [] {
      CommitsAreCommits(messages[..|messages| - 1]);
    }
  }

  /** Only the commits matter for the group. */
  lemma {:induction false} FollowCommits(g: Group, messages: seq<Message>)
    ensures Follow(g, messages) == Follow(g, Commits(messages))
  {
    if messages != [] {
      var n := |messages| - 1;
      FollowCommits(g, messages[..n]);
      var before := Commits(messages[..n]);
      if messages[n].kind == CommitKind {
        assert (before + [messages[n]])[..|before|] == before;
      } else {
        assert before + [] == before;
      }
    }
  }

  // ---------------------------------------------------------------- the server's log

  /** States the server decided, one commit between neighbours, each creating the next epoch. */
  ghost predicate IsLog(states: seq<MlsState>, authors: seq<string>) {
    && |states| == |authors| + 1
    && forall i :: 0 <= i < |authors| ==> states[i + 1].epoch == states[i].epoch + 1
  }

  /** The commits of the batch are the log, each labelled with the epoch it creates. Their sender fields may be
      anything. */
  ghost predicate Carries(cs: seq<Message>, states: seq<MlsState>, authors: seq<string>)
    requires IsLog(states, authors)
  {
    && |cs| == |authors|
    && forall i :: 0 <= i < |cs| ==>
         && cs[i].kind == CommitKind
         && cs[i].blob == Commit(states[i], states[i + 1], authors[i])
         && cs[i].epoch == states[i + 1].epoch
  }

  /** The client can take step `i` of the log: it is a member there, and the commit is someone else's. */
  predicate CanFollow(own: string, states: seq<MlsState>, authors: seq<string>, i: nat)
    requires i < |authors| && |states| == |authors| + 1
  {
    authors[i] != own && own in states[i].members
  }

  ghost predicate CanFollowFrom(own: string, states: seq<MlsState>, authors: seq<string>, k: nat)
    requires IsLog(states, authors)
  {
    forall i :: k <= i < |authors| ==> CanFollow(own, states, authors, i)
  }

  lemma {:induction false} EpochsCount(states: seq<MlsState>, authors: seq<string>, i: nat)
    requires IsLog(states, authors) && i < |states|
    ensures states[i].epoch == states[0].epoch + i
  {
    if i > 0 {
      EpochsCount(states, authors, i - 1);
    }
  }

  /** How far along the log a client standing at position `k` gets with the first `n` commits. */
  function Reach(own: string, states: seq<MlsState>, authors: seq<string>, k: nat, n: nat): nat
    requires |states| == |authors| + 1 && n <= |authors|
  {
    if n <= k then k else
    var r := Reach(own, states, authors, k, n - 1);
    if r == n - 1 && CanFollow(own, states, authors, n - 1) then n else r
  }

  lemma {:induction false} FollowReaches(g: Group, own: string, cs: seq<Message>, states: seq<MlsState>,
                                         authors: seq<string>, k: nat, n: nat)
    requires IsLog(states, authors) && Carries(cs, states, authors)
    requires g.own == Some(own) && k < |states| && g.state == states[k] && n <= |cs|
    ensures var r := Reach(own, states, authors, k, n);
            && k <= r < |states| && (r <= n || r == k)
            && Follow(g, cs[..n]).state == states[r] && Follow(g, cs[..n]).own == g.own
  {
    if n == 0 {
      assert cs[..0] == [];
    } else {
      FollowReaches(g, own, cs, states, authors, k, n - 1);
      assert cs[..n][..n - 1] == cs[..n - 1];
      var r := Reach(own, states, authors, k, n - 1);
      TakesCommit(Follow(g, cs[..n - 1]), own, cs[n - 1], states, authors, r, n - 1);
    }
  }

  /** At position `r` of the log, commit number `m` is taken exactly if it is the next one and can be followed. */
  lemma TakesCommit(h: Group, own: string, msg: Message, states: seq<MlsState>, authors: seq<string>, r: nat, m: nat)
    requires IsLog(states, authors) && m < |authors| && msg.kind == CommitKind
    requires msg.blob == Commit(states[m], states[m + 1], authors[m])
    requires h.own == Some(own) && r < |states| && h.state == states[r]
    ensures Offer(h, msg).own == h.own
    ensures Offer(h, msg).state == states[if r == m && CanFollow(own, states, authors, m) then m + 1 else r]
  {
    EpochsCount(states, authors, r);
    EpochsCount(states, authors, m);
  }

  lemma {:induction false} ReachesEnd(own: string, states: seq<MlsState>, authors: seq<string>, k: nat, n: nat)
    requires IsLog(states, authors) && k <= n <= |authors|
    ensures Reach(own, states, authors, k, n) == n <==> forall i :: k <= i < n ==> CanFollow(own, states, authors, i)
    ensures Reach(own, states, authors, k, n) <= n
  {
    if n > k {
      ReachesEnd(own, states, authors, k, n - 1);
    }
  }

  /** Replay from position `k` of the log ends in the server's head state if and only if every later commit is someone
      else's and the client is a member all along. */
  lemma ReplayConvergesIff(g: Group, own: string, messages: seq<Message>, states: seq<MlsState>, authors: seq<string>,
                           k: nat)
    requires IsLog(states, authors) && Carries(Commits(messages), states, authors)
    requires g.own == Some(own) && k < |states| && g.state == states[k]
    ensures Follow(g, messages).state == states[|authors|] <==> CanFollowFrom(own, states, authors, k)
  {
    var cs, h := Commits(messages), |authors|;
    FollowCommits(g, messages);
    FollowReaches(g, own, cs, states, authors, k, h);
    assert cs[..h] == cs;
    ReachesEnd(own, states, authors, k, h);
    EpochsCount(states, authors, Reach(own, states, authors, k, h));
    EpochsCount(states, authors, h);
  }

  /** A client in a state the server never decided for its epoch takes no commit at all. */
  lemma {:induction false} OffTheLog(g: Group, cs: seq<Message>, states: seq<MlsState>, authors: seq<string>, n: nat)
    requires IsLog(states, authors) && Carries(cs, states, authors) && n <= |cs|
    requires forall i :: 0 <= i < |states| ==> states[i] != g.state
    ensures Follow(g, cs[..n]) == g
  {
    if n == 0 {
      assert cs[..0] == [];
    } else {
      OffTheLog(g, cs, states, authors, n - 1);
      assert cs[..n][..n - 1] == cs[..n - 1];
      assert cs[n - 1].blob == Commit(states[n - 1], states[n], authors[n - 1]);
    }
  }

  /** Having merged `own` pending result for the first slot. */
  lemma MergedConvergesIff(g: Group, own: string, messages: seq<Message>, states: seq<MlsState>, authors: seq<string>)
    requires IsLog(states, authors) && |authors| > 0 && Carries(Commits(messages), states, authors)
    requires g.own == Some(own) && g.state.epoch == states[0].epoch + 1
    ensures Follow(g, messages).state == states[|authors|] <==>
            g.state == states[1] && CanFollowFrom(own, states, authors, 1)
  {
    if g.state == states[1] {
      ReplayConvergesIff(g, own, messages, states, authors, 1);
    } else {
      forall i | 0 <= i < |states|
        ensures states[i] != g.state
      {
        EpochsCount(states, authors, i);
      }
      var cs := Commits(messages);
      FollowCommits(g, messages);
      OffTheLog(g, cs, states, authors, |cs|);
      assert cs[..|cs|] == cs;
    }
  }

  // ---------------------------------------------------------------- the slot

  /** The first commit with a label is the first such among the commits. */
  lemma {:induction false} SlotAmongCommits(messages: seq<Message>, wanted: nat)
    ensures FirstCommitLabelled(messages, wanted) == FirstCommitLabelled(Commits(messages), wanted)
  {
    if messages != [] {
      var n := |messages| - 1;
      SlotAmongCommits(messages[..n], wanted);
      assert messages == messages[..n] + [messages[n]];
      FirstSplits(messages[..n], [messages[n]], wanted);
      FirstSplits(Commits(messages[..n]), if messages[n].kind == CommitKind then [messages[n]] else [], wanted);
      assert [messages[n]][1..] == [];
    }
  }

  lemma {:induction false} FirstSplits(a: seq<Message>, b: seq<Message>, wanted: nat)
    ensures FirstCommitLabelled(a + b, wanted) ==
            if FirstCommitLabelled(a, wanted).Some? then FirstCommitLabelled(a, wanted)
            else FirstCommitLabelled(b, wanted)
    decreases |a|
  {
    if a == [] {
      assert a + b == b;
    } else {
      assert (a + b)[1..] == a[1..] + b;
      FirstSplits(a[1..], b, wanted);
    }
  }

  /** The epoch the pending commit creates, wherever it is kept. */
  function Creates(g: Group): nat {
    match g.pending
    case Staged(child) => child.epoch
    case _ => g.state.epoch
  }

  /** For a tree update and for an external join alike, the slot looked up is the epoch the pending commit creates,
      and what is found there is the server's first commit after the common base, if there is one. */
  lemma SlotIsWhatThePendingCommitCreates(g: Group, op: Op, messages: seq<Message>, states: seq<MlsState>,
                                          authors: seq<string>)
    requires IsLog(states, authors) && Carries(Commits(messages), states, authors)
    requires Creates(g) == states[0].epoch + 1
    requires || (op == UpdateTree && g.pending.Staged? && g.state == states[0])
             || (op == JoinByExternalCommit && g.pending == External)
    ensures FirstMessage(g.state.epoch, messages, op) == FirstCommitLabelled(messages, Creates(g))
    ensures FirstMessage(g.state.epoch, messages, op) == if |authors| == 0 then None else Some(Commits(messages)[0])
  {
    SlotAmongCommits(messages, states[0].epoch + 1);
    if |authors| > 0 {
      assert Commits(messages)[0].epoch == states[1].epoch;
    }
  }

  // ---------------------------------------------------------------- convergence of a whole turn

  ghost predicate Stored(db: Db, args: Args, g: Group, op: Op) {
    && g.id == args.group && args.group in db.groups && db.groups[args.group] == g
    && StatusOf(db, args.group) == op
  }

  /** The pending operation is one that a turn settles for good: not a created group at epoch 0 that the server has
      already moved past, which is left as it is. */
  predicate Settleable(db: Db, args: Args) {
    args.group in db.groups && StatusOf(db, args.group) == CreateGroup ==>
      db.groups[args.group].state.epoch > 0 || args.pendingEpoch == 0
  }

  /** The stored group has an operation pending that a turn settles. */
  predicate Settles(db: Db, args: Args) {
    args.group in db.groups && StatusOf(db, args.group) !in {LeaveGroup, NoOp} && Settleable(db, args)
  }

  /** Settling is final and touches one group: memory and storage agree afterwards, every other group and status row is
      as before, and once the status is written no later turn, whatever its batch, settles anything again. A settled
      group has nothing staged, and its status says so unless it could be neither written nor, on deletion, deleted;
      where there is nothing to settle, nothing changes. */
  lemma SettlingIsFinal(db: Db, args: Args, f: Faults, later: Args, f': Faults)
    requires Resolve(db, args, f).Resolved? && !f.load && later.group == args.group
    ensures var r := Resolve(db, args, f);
            && r.held == (if args.group in r.db.groups then Some(r.db.groups[args.group]) else None)
            && (r.deleted ==> r.held.None? && args.group in db.groups)
            && (forall id :: id != args.group ==>
                  && (id in r.db.groups <==> id in db.groups) && (id in db.groups ==> r.db.groups[id] == db.groups[id])
                  && StatusOf(r.db, id) == StatusOf(db, id))
            && (Settleable(db, args) && !f.statusWrite && !f'.load && !f'.statusRead ==>
                  Resolve(r.db, later, f') == Resolved(r.db, r.held, false))
            && (if Settles(db, args)
                then && (r.held.Some? ==> !r.held.value.pending.Staged?)
                     && StatusOf(r.db, args.group) ==
                          if f.statusWrite && !(r.deleted && !f.statusDelete) then StatusOf(db, args.group) else NoOp
                else r.db == db && !r.deleted)
  {
  }

  /** After settling, a turn stores the followed group: up to a storage failure, or to the end. */
  lemma TurnFollows(db: Db, args: Args, f: Faults, d: Db, g: Group) returns (n: nat)
    requires NoWelcome(args.messages)
    requires Resolve(db, args, f) == Resolved(d, Some(g), false) && g.id == args.group
    requires args.group in d.groups && d.groups[args.group] == g
    ensures n <= |args.messages| && (Quiet(f) ==> args.messages[..n] == args.messages)
    ensures var t := ProcessGroup(db, args, f);
            && t.TurnDone? && !t.deleted && (t.result.error <==> n < |args.messages|)
            && args.group in t.db.groups && t.db.groups[args.group] == Follow(g, args.messages[..n])
  {
    n := ReplayFollows(Begin(d, Some(g), args.messages), g, args.messages, LatestEpoch(args.messages), f);
  }

  lemma {:induction false} CommitsPrefix(messages: seq<Message>, n: nat)
    requires n <= |messages|
    ensures Commits(messages[..n]) <= Commits(messages)
  {
    if n < |messages| {
      var m := |messages| - 1;
      CommitsPrefix(messages[..m], n);
      assert messages[..m][..n] == messages[..n];
    } else {
      assert messages[..n] == messages;
    }
  }

  /** A storage failure never takes a client off the log: settled at one of the server's states, it ends the turn
      at that or a later one, whatever storage does meanwhile. */
  lemma FailuresStayOnTheLog(db: Db, args: Args, f: Faults, d: Db, g: Group, own: string, states: seq<MlsState>,
                             authors: seq<string>, k: nat)
    returns (j: nat)
    requires NoWelcome(args.messages) && IsLog(states, authors) && Carries(Commits(args.messages), states, authors)
    requires Resolve(db, args, f) == Resolved(d, Some(g), false) && g.id == args.group
    requires args.group in d.groups && d.groups[args.group] == g
    requires g.own == Some(own) && k < |states| && g.state == states[k]
    ensures k <= j < |states|
    ensures var t := ProcessGroup(db, args, f);
            t.TurnDone? && !t.deleted && args.group in t.db.groups && t.db.groups[args.group].state == states[j]
  {
    var n := TurnFollows(db, args, f, d, g);
    j := PartStaysOnTheLog(g, own, args.messages, n, states, authors, k);
  }

  lemma PartStaysOnTheLog(g: Group, own: string, messages: seq<Message>, n: nat, states: seq<MlsState>,
                          authors: seq<string>, k: nat)
    returns (j: nat)
    requires IsLog(states, authors) && Carries(Commits(messages), states, authors) && n <= |messages|
    requires g.own == Some(own) && k < |states| && g.state == states[k]
    ensures Commits(messages[..n]) <= Commits(messages)
    ensures j == Reach(own, states, authors, k, |Commits(messages[..n])|)
    ensures k <= j < |states| && Follow(g, messages[..n]).state == states[j]
  {
    var cs, some := Commits(messages), Commits(messages[..n]);
    CommitsPrefix(messages, n);
    FollowCommits(g, messages[..n]);
    FollowReaches(g, own, cs, states, authors, k, |some|);
    assert cs[..|some|] == some;
    j := Reach(own, states, authors, k, |some|);
  }

  /** The first commit of the batch names this client as its sender. */
  predicate NamesOwn(own: string, messages: seq<Message>) {
    Commits(messages) != [] && Names(own, Commits(messages)[0].sender)
  }

  /** The sender field of the first commit tells the truth about whether the client is its author. */
  predicate Truthful(own: string, messages: seq<Message>, authors: seq<string>) {
    NamesOwn(own, messages) <==> |authors| > 0 && authors[0] == own
  }

  /** Tree update. The pending commit is merged exactly when the server's commit for its slot names the client as
      sender, and else cleared. A merged client then reaches the server's head state if and only if the server's
      commit is the pending one and it can follow the rest, a cleared one if and only if it can follow the log from
      its base. */
  lemma TreeUpdateConverges(db: Db, args: Args, f: Faults, g: Group, own: string, states: seq<MlsState>,
                            authors: seq<string>)
    requires Quiet(f) && NoWelcome(args.messages) && Stored(db, args, g, UpdateTree)
    requires g.own == Some(own) && g.pending.Staged? && g.pending.child.epoch == g.state.epoch + 1
    requires IsLog(states, authors) && g.state == states[0] && Carries(Commits(args.messages), states, authors)
    ensures var merged := NamesOwn(own, args.messages);
            var t := ProcessGroup(db, args, f);
            && Resolve(db, args, f).Resolved?
            && Resolve(db, args, f).held == Some(if merged then MergePending(g) else ClearPending(g))
            && t.TurnDone? && !t.deleted && args.group in t.db.groups
            && (t.db.groups[args.group].state == states[|authors|] <==>
                  if merged then g.pending.child == states[1] && CanFollowFrom(own, states, authors, 1)
                  else CanFollowFrom(own, states, authors, 0))
  {
    SlotIsWhatThePendingCommitCreates(g, UpdateTree, args.messages, states, authors);
    if |authors| > 0 {
      SenderLaw(own, Commits(args.messages)[0].sender);
    }
    var r := Resolve(db, args, f);
    var settled := r.held.value;
    var _ := TurnFollows(db, args, f, r.db, settled);
    if NamesOwn(own, args.messages) {
      MergedConvergesIff(settled, own, args.messages, states, authors);
    } else {
      ReplayConvergesIff(settled, own, args.messages, states, authors, 0);
    }
  }

  /** External join. The group is deleted, and listed as deleted, exactly when the server has no commit for the
      slot or one that does not name the client as sender; otherwise the turn ends in the server's head state if
      and only if the joined state is the server's and the client can follow the rest. */
  lemma ExternalJoinConverges(db: Db, args: Args, f: Faults, g: Group, own: string, states: seq<MlsState>,
                              authors: seq<string>)
    requires Quiet(f) && NoWelcome(args.messages) && Stored(db, args, g, JoinByExternalCommit)
    requires IsLog(states, authors)
    requires g.own == Some(own) && g.pending == External && g.state.epoch == states[0].epoch + 1
    requires Carries(Commits(args.messages), states, authors)
    ensures var t := ProcessGroup(db, args, f);
            && t.TurnDone?
            && (t.deleted <==> !NamesOwn(own, args.messages))
            && (t.deleted ==> args.group !in t.db.groups)
            && (!t.deleted ==>
                  && args.group in t.db.groups
                  && (t.db.groups[args.group].state == states[|authors|] <==>
                        g.state == states[1] && CanFollowFrom(own, states, authors, 1)))
  {
    SlotIsWhatThePendingCommitCreates(g, JoinByExternalCommit, args.messages, states, authors);
    if |authors| > 0 {
      SenderLaw(own, Commits(args.messages)[0].sender);
    }
    var r := Resolve(db, args, f);
    if NamesOwn(own, args.messages) {
      var _ := TurnFollows(db, args, f, r.db, r.held.value);
      MergedConvergesIff(r.held.value, own, args.messages, states, authors);
    } else {
      NothingHeld(Begin(r.db, None, args.messages), args.group, args.messages, LatestEpoch(args.messages), f);
    }
  }

  /** So a tree update is merged exactly when the server's commit for the slot is the client's own, if and only if the
      sender field of that commit is truthful. Then the client ends in the head state exactly when that commit, if own,
      is the pending one and the rest can be followed; an own commit with an untruthful sender leaves it behind. */
  lemma TreeUpdateIsDecidedRightly(db: Db, args: Args, f: Faults, g: Group, own: string, states: seq<MlsState>,
                                   authors: seq<string>)
    requires Quiet(f) && NoWelcome(args.messages) && Stored(db, args, g, UpdateTree)
    requires g.own == Some(own) && g.pending.Staged? && g.pending.child.epoch == g.state.epoch + 1
    requires IsLog(states, authors) && g.state == states[0] && Carries(Commits(args.messages), states, authors)
    ensures var mine := |authors| > 0 && authors[0] == own;
            var t := ProcessGroup(db, args, f);
            && Resolve(db, args, f).Resolved? && t.TurnDone? && args.group in t.db.groups
            && ((Resolve(db, args, f).held == Some(MergePending(g)) <==> mine) <==>
                  Truthful(own, args.messages, authors))
            && (Truthful(own, args.messages, authors) ==>
                  (t.db.groups[args.group].state == states[|authors|] <==>
                     if mine then g.pending.child == states[1] && CanFollowFrom(own, states, authors, 1)
                     else CanFollowFrom(own, states, authors, 0)))
            && (mine && !Truthful(own, args.messages, authors) ==> t.db.groups[args.group].state != states[|authors|])
  {
    TreeUpdateConverges(db, args, f, g, own, states, authors);
    assert MergePending(g).state.epoch != ClearPending(g).state.epoch;
    assert |authors| > 0 && authors[0] == own ==> !CanFollow(own, states, authors, 0);
  }

  /** In the same way an external join survives exactly when the server's commit for the slot is the client's own,
      if and only if the sender field of that commit is truthful. */
  lemma ExternalJoinIsDecidedRightly(db: Db, args: Args, f: Faults, g: Group, own: string, states: seq<MlsState>,
                                     authors: seq<string>)
    requires Quiet(f) && NoWelcome(args.messages) && Stored(db, args, g, JoinByExternalCommit)
    requires IsLog(states, authors)
    requires g.own == Some(own) && g.pending == External && g.state.epoch == states[0].epoch + 1
    requires Carries(Commits(args.messages), states, authors)
    ensures var t := ProcessGroup(db, args, f);
            && t.TurnDone?
            && ((!t.deleted <==> |authors| > 0 && authors[0] == own) <==> Truthful(own, args.messages, authors))
  {
    ExternalJoinConverges(db, args, f, g, own, states, authors);
  }

  /** Without a group and without a welcome the second pass stores nothing. */
  lemma {:induction false} NothingHeld(r: Replay, id: GroupId, messages: seq<Message>, latest: nat, f: Faults)
    requires NoWelcome(messages) && r.held.None?
    ensures var s := ReplayAll(r, id, messages, latest, f);
            s.held.None? && s.groups == r.groups && s.error == r.error && s.toRemove == r.toRemove
  {
    if messages != [] {
      NothingHeld(r, id, messages[..|messages| - 1], latest, f);
    }
  }

  /** With nothing pending the same criterion holds from the start; in particular an own commit in the log, which the
      library refuses to process, leaves the client behind for good. */
  lemma NoPendingConverges(db: Db, args: Args, f: Faults, g: Group, own: string, states: seq<MlsState>,
                           authors: seq<string>)
    requires Quiet(f) && NoWelcome(args.messages) && Stored(db, args, g, NoOp)
    requires g.own == Some(own) && IsLog(states, authors) && g.state == states[0]
    requires Carries(Commits(args.messages), states, authors)
    ensures var t := ProcessGroup(db, args, f);
            && t.TurnDone? && !t.deleted && args.group in t.db.groups
            && (t.db.groups[args.group].state == states[|authors|] <==> CanFollowFrom(own, states, authors, 0))
  {
    var _ := TurnFollows(db, args, f, db, g);
    ReplayConvergesIff(g, own, args.messages, states, authors, 0);
  }

  /** A tree update settled by a batch without commits is cleared. A later batch with the server's log then brings the
      client to the head state if and only if it can follow the log from the base: never, if the server decided for the
      cleared update after all. */
  lemma ClearedUpdateCatchesUpIff(db: Db, early: Args, late: Args, f: Faults, f': Faults, g: Group, own: string,
                                  states: seq<MlsState>, authors: seq<string>)
    requires Quiet(f) && Quiet(f') && NoWelcome(early.messages) && NoWelcome(late.messages)
    requires Stored(db, early, g, UpdateTree) && early.group == late.group
    requires g.own == Some(own) && g.pending.Staged? && g.pending.child.epoch == g.state.epoch + 1
    requires IsLog(states, authors) && g.state == states[0]
    requires Commits(early.messages) == [] && Carries(Commits(late.messages), states, authors)
    ensures var t := ProcessGroup(db, early, f);
            t.TurnDone? &&
            var u := ProcessGroup(t.db, late, f');
            && u.TurnDone? && late.group in u.db.groups
            && (u.db.groups[late.group].state == states[|authors|] <==> CanFollowFrom(own, states, authors, 0))
            && (|authors| > 0 && authors[0] == own ==> u.db.groups[late.group].state != states[|authors|])
  {
    TreeUpdateConverges(db, early, f, g, own, [states[0]], []);
    var t := ProcessGroup(db, early, f);
    SlotAmongCommits(early.messages, states[0].epoch + 1);
    var settled := ClearPending(g);
    var _ := TurnFollows(db, early, f, Resolve(db, early, f).db, settled);
    FollowCommits(settled, early.messages);
    var _ := TurnFollows(t.db, late, f', Resolve(t.db, late, f').db, settled);
    ReplayConvergesIff(settled, own, late.messages, states, authors, 0);
    assert |authors| > 0 && authors[0] == own ==> !CanFollow(own, states, authors, 0);
  }

  // ---------------------------------------------------------------- clients that are left behind

  function SampleState(epoch: nat, treeHash: seq<byte>): MlsState {
    MlsState(epoch, {"a/x"}, treeHash)
  }

  /** A client with a pending tree update from epoch 5. */
  function SampleGroup(): Group {
    Group("g", SampleState(5, []), Some("a/x"), Staged(SampleState(6, [2])))
  }

  function SampleDb(): Db {
    Db(map["g" := SampleGroup()], map["g" := UpdateTree])
  }

  /** The server's commit for the slot, by the client itself, under some sender name. */
  function SampleCommit(child: MlsState, sender: string): Message {
    Message(CommitKind, 6, sender, None, Commit(SampleState(5, []), child, "a/x"), None, None)
  }

  function NoFaults(): Faults {
    Faults(false, false, false, false, false, (_: nat) => false, (_: nat) => LoadOk, (_: nat) => false)
  }

  lemma SampleCarries(child: MlsState, sender: string)
    requires child.epoch == 6
    ensures var states, authors := [SampleState(5, []), child], ["a/x"];
            IsLog(states, authors) && Carries(Commits([SampleCommit(child, sender)]), states, authors)
    ensures NamesOwn("a/x", [SampleCommit(child, sender)]) <==> sender in {"x", "a/x"}
  {
    var m := SampleCommit(child, sender);
    assert [m][..0] == [];
    assert Commits([m]) == [m];
    SenderLaw("a/x", sender);
    assert Slash("a/x") == 1 + Slash("/x");
    assert "a/x"[2..] == "x";
  }

  function SampleArgs(child: MlsState, sender: string): Args {
    Args("g", [SampleCommit(child, sender)], 0, [])
  }

  /** The slot holds another commit of the client's than the pending one (tree hash [1], not [2]): the pending one
      is merged all the same, and the client ends in a state the server never decided. */
  lemma MergedTheWrongCommit()
    ensures var args := SampleArgs(SampleState(6, [1]), "x");
            var t := ProcessGroup(SampleDb(), args, NoFaults());
            && t.TurnDone? && "g" in t.db.groups
            && Resolve(SampleDb(), args, NoFaults()).held == Some(MergePending(SampleGroup()))
            && t.db.groups["g"].state != SampleState(6, [1])
  {
    var child := SampleState(6, [1]);
    SampleCarries(child, "x");
    TreeUpdateConverges(SampleDb(), SampleArgs(child, "x"), NoFaults(), SampleGroup(), "a/x",
                        [SampleState(5, []), child], ["a/x"]);
    assert [2] != [1] by { assert [2][0] != [1][0]; }
  }

  /** The slot holds the very commit that is pending, but its sender field is empty: the update is cleared and the
      client stays behind. */
  lemma ClearedForAnEmptySender()
    ensures var args := SampleArgs(SampleState(6, [2]), "");
            var t := ProcessGroup(SampleDb(), args, NoFaults());
            && t.TurnDone? && "g" in t.db.groups
            && Resolve(SampleDb(), args, NoFaults()).held == Some(ClearPending(SampleGroup()))
            && t.db.groups["g"].state != SampleState(6, [2])
  {
    var child := SampleState(6, [2]);
    SampleCarries(child, "");
    TreeUpdateIsDecidedRightly(SampleDb(), SampleArgs(child, ""), NoFaults(), SampleGroup(), "a/x",
                               [SampleState(5, []), child], ["a/x"]);
    TreeUpdateConverges(SampleDb(), SampleArgs(child, ""), NoFaults(), SampleGroup(), "a/x",
                        [SampleState(5, []), child], ["a/x"]);
  }

  /** An empty batch clears the update; when the server then decides for it, the client stays at epoch 5. */
  lemma ClearedTooEarly()
    ensures var t := ProcessGroup(SampleDb(), Args("g", [], 0, []), NoFaults());
            t.TurnDone? &&
            var u := ProcessGroup(t.db, SampleArgs(SampleState(6, [2]), "x"), NoFaults());
            u.TurnDone? && "g" in u.db.groups && u.db.groups["g"].state != SampleState(6, [2])
  {
    var child := SampleState(6, [2]);
    SampleCarries(child, "x");
    ClearedUpdateCatchesUpIff(SampleDb(), Args("g", [], 0, []), SampleArgs(child, "x"), NoFaults(), NoFaults(),
                              SampleGroup(), "a/x", [SampleState(5, []), child], ["a/x"]);
  }

  // ---------------------------------------------------------------- replay of a commit-only batch

  /** Commit contents advance the epoch by one and are labelled with the epoch they create. */
  ghost predicate ProperCommits(messages: seq<Message>) {
    forall i :: 0 <= i < |messages| && messages[i].kind == CommitKind ==> ProperCommit(messages[i])
  }

  ghost predicate ProperCommit(msg: Message) {
    match msg.blob
    case Commit(parent, child, _) => child.epoch == parent.epoch + 1 && msg.epoch == child.epoch
    case StrayProposal(_, _) => false
    case Garbage => true
  }

  predicate Accepts(g: Group, msg: Message) {
    msg.kind == CommitKind && Apply(g, msg.blob).Some?
  }

  function Accepted(g: Group, messages: seq<Message>): nat {
    if messages == [] then 0 else
    var init := messages[..|messages| - 1];
    Accepted(g, init) + if Accepts(Follow(g, init), messages[|messages| - 1]) then 1 else 0
  }

  /** The final epoch counts the accepted commits. */
  lemma {:induction false} EpochCountsAccepted(g: Group, messages: seq<Message>)
    requires ProperCommits(messages)
    ensures Follow(g, messages).state.epoch == g.state.epoch + Accepted(g, messages)
    ensures Follow(g, messages).own == g.own
  {
    if messages != [] {
      var n := |messages| - 1;
      assert forall i :: 0 <= i < n ==> messages[..n][i] == messages[i];
      EpochCountsAccepted(g, messages[..n]);
    }
  }

  /** Later states differ from earlier ones exactly by a higher epoch, and a higher epoch comes from an accepted
      commit. */
  lemma {:induction false} StatesAdvance(g: Group, messages: seq<Message>, n: nat) returns (m: nat)
    requires ProperCommits(messages) && n <= |messages|
    ensures var s, t := Follow(g, messages[..n]), Follow(g, messages);
            && s.state.epoch <= t.state.epoch
            && (s.state.epoch == t.state.epoch ==> s.state == t.state)
            && (s.state.epoch < t.state.epoch ==>
                  && n <= m < |messages| && Accepts(Follow(g, messages[..m]), messages[m])
                  && messages[m].epoch == t.state.epoch)
    decreases |messages|
  {
    m := n;
    if n == |messages| {
      assert messages[..n] == messages;
    } else {
      var last := |messages| - 1;
      var init := messages[..last];
      assert init[..n] == messages[..n];
      assert forall i :: 0 <= i < last ==> init[i] == messages[i];
      if Accepts(Follow(g, init), messages[last]) {
        var _ := StatesAdvance(g, init, n);
        m := last;
      } else {
        m := StatesAdvance(g, init, n);
        if m < last {
          assert init[..m] == messages[..m];
        }
      }
    }
  }

  ghost predicate InLabelOrder(messages: seq<Message>) {
    forall i, j :: 0 <= i < j < |messages| && messages[i].kind == messages[j].kind == CommitKind ==>
      messages[i].epoch <= messages[j].epoch
  }

  /** After a batch in label order, no commit of it is acceptable any more. */
  lemma NothingLeftToAccept(g: Group, messages: seq<Message>, n: nat)
    requires ProperCommits(messages) && InLabelOrder(messages) && n < |messages|
    ensures !Accepts(Follow(g, messages), messages[n])
  {
    var s, t := Follow(g, messages[..n]), Follow(g, messages);
    EpochCountsAccepted(g, messages);
    assert forall i :: 0 <= i < n ==> messages[..n][i] == messages[i];
    EpochCountsAccepted(g, messages[..n]);
    assert messages[..n + 1][..n] == messages[..n];
    var m := StatesAdvance(g, messages, n);
    var _ := StatesAdvance(g, messages, n + 1);
    assert Follow(g, messages[..n + 1]) == Offer(s, messages[n]);
    AcceptedNext(s, t, messages[n]);
  }

  /** A commit that `t` accepts is labelled with the next epoch; `s` accepts it too if it is in the same state. */
  lemma AcceptedNext(s: Group, t: Group, msg: Message)
    requires msg.kind == CommitKind ==> ProperCommit(msg)
    requires s.own == t.own
    ensures Accepts(t, msg) ==> msg.epoch == t.state.epoch + 1
    ensures Accepts(t, msg) && s.state == t.state ==> Offer(s, msg).state.epoch == t.state.epoch + 1
  {
  }

  /** Replaying an epoch-ordered batch a second time changes nothing. */
  lemma ReplayTwiceIsOnce(g: Group, messages: seq<Message>)
    requires ProperCommits(messages) && InLabelOrder(messages)
    ensures Follow(Follow(g, messages), messages) == Follow(g, messages)
  {
    SecondReplayIdles(g, messages, |messages|);
    assert messages[..|messages|] == messages;
  }

  lemma {:induction false} SecondReplayIdles(g: Group, messages: seq<Message>, n: nat)
    requires ProperCommits(messages) && InLabelOrder(messages) && n <= |messages|
    ensures Follow(Follow(g, messages), messages[..n]) == Follow(g, messages)
  {
    if n == 0 {
      assert messages[..0] == [];
    } else {
      SecondReplayIdles(g, messages, n - 1);
      assert messages[..n][..n - 1] == messages[..n - 1];
      NothingLeftToAccept(g, messages, n - 1);
    }
  }

  /** A whole second turn with the same label-ordered batch, pending operation and all, changes nothing stored. */
  lemma SecondTurnChangesNothing(db: Db, args: Args, f: Faults, f': Faults)
    requires Quiet(f) && Quiet(f') && !f.statusWrite && NoWelcome(args.messages)
    requires ProperCommits(args.messages) && InLabelOrder(args.messages)
    requires args.group in db.groups ==> db.groups[args.group].id == args.group
    requires Settleable(db, args) && ProcessGroup(db, args, f).TurnDone?
    ensures var t := ProcessGroup(db, args, f);
            var u := ProcessGroup(t.db, args, f');
            u.TurnDone? && !u.deleted && u.db == t.db
  {
    var r := Resolve(db, args, f);
    SettlingIsFinal(db, args, f, args, f');
    if r.held.None? {
      NothingHeld(Begin(r.db, None, args.messages), args.group, args.messages, LatestEpoch(args.messages), f);
      NothingHeld(Begin(r.db, None, args.messages), args.group, args.messages, LatestEpoch(args.messages), f');
    } else {
      FollowedTwice(db, args, f, r.db, r.held.value, f');
    }
  }

  /** The same for a group that was settled and followed: it is stored as it was after the first turn. */
  lemma FollowedTwice(db: Db, args: Args, f: Faults, d: Db, g: Group, f': Faults)
    requires Quiet(f) && Quiet(f') && NoWelcome(args.messages)
    requires ProperCommits(args.messages) && InLabelOrder(args.messages)
    requires Resolve(db, args, f) == Resolved(d, Some(g), false) && g.id == args.group
    requires args.group in d.groups && d.groups[args.group] == g
    requires Resolve(d, args, f') == Resolved(d, Some(g), false)
    requires StatusOf(d, args.group) in {NoOp, LeaveGroup}
    ensures var t := ProcessGroup(db, args, f);
            t.TurnDone? && var u := ProcessGroup(t.db, args, f'); u.TurnDone? && !u.deleted && u.db == t.db
  {
    var latest, h := LatestEpoch(args.messages), Follow(g, args.messages);
    var n := ReplayFollows(Begin(d, Some(g), args.messages), g, args.messages, latest, f);
    assert args.messages[..n] == args.messages;
    var t := ProcessGroup(db, args, f);
    assert t.db.groups == d.groups[args.group := h];
    var _ := ReplayFollows(Begin(t.db, Some(h), args.messages), h, args.messages, latest, f');
    ReplayTwiceIsOnce(g, args.messages);
    assert t.db.groups[args.group := h] == t.db.groups;
  }
}
