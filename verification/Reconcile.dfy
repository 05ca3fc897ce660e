/** The batch reconciler `process_all_messages` of crates/kchat-mls/src/lib.rs: it settles a locally
    pending operation against the server's commits, then replays the batch. */
module Reconcile {
  import opened Common

  type GroupId = string

  // ---------------------------------------------------------------- the MLS group, as far as it matters here

  /** A group state: epoch, readable member ids, tree hash. */
  datatype MlsState = MlsState(epoch: nat, members: set<string>, treeHash: seq<byte>)

  /** A local commit waiting for the server. A member's commit keeps its result aside; an external join
      already stands in the state it creates. */
  datatype Pending = NoPending | Staged(child: MlsState) | External

  datatype Group = Group(id: GroupId, state: MlsState, own: Option<string>, pending: Pending)

  /** What a commit message carries: a commit from a parent state, a stray proposal (which the library answers
      with a commit of its own), or nothing usable. */
  datatype Blob =
    | Commit(parent: MlsState, child: MlsState, author: string)
    | StrayProposal(parent: MlsState, reply: MlsState)
    | Garbage

  /** `process_operation_message`: a commit is accepted only from its parent state (sections 12.4.2 and 14 of
      RFC 9420), by a current member, and never by its own author. */
  function Apply(g: Group, blob: Blob): Option<Group> {
    if g.own.None? || g.own.value !in g.state.members then None else
    match blob
    case Commit(parent, child, author) =>
      if parent == g.state && author != g.own.value then Some(g.(state := child, pending := NoPending)) else None
    case StrayProposal(parent, reply) =>
      if parent == g.state && g.pending == NoPending then Some(g.(pending := Staged(reply))) else None
    case Garbage => None
  }

  function MergePending(g: Group): Group {
    match g.pending
    case Staged(child) => g.(state := child, pending := NoPending)
    case External => g.(pending := NoPending)
    case NoPending => g
  }

  function ClearPending(g: Group): Group {
    if g.pending.Staged? then g.(pending := NoPending) else g
  }

  // ---------------------------------------------------------------- messages and members

  datatype Kind = Welcome | CommitKind | Proposal | Unknown

  datatype Native = Native(isRemove: bool, sender: string)
  datatype Custom = Custom(readd: bool, jid: Option<string>, clientId: Option<string>)

  /** A message with what the library makes of it: the group a welcome yields, the commit content, the proposal
      the first pass decrypts, the custom proposal it parses to. */
  datatype Message = Message(kind: Kind, epoch: nat, sender: string,
                             welcome: Option<Group>, blob: Blob, native: Option<Native>, custom: Option<Custom>)

  datatype MemberInfo = MemberInfo(jid: Option<string>, clientId: Option<string>, fingerprint: Option<string>)

  /** Position of the first slash, or the length. */
  function Slash(id: string): (n: nat)
    ensures n <= |id| && (n < |id| ==> id[n] == '/')
    ensures forall k :: 0 <= k < n ==> id[k] != '/'
  {
    if id == "" || id[0] == '/' then 0 else 1 + Slash(id[1..])
  }

  function ExtractJid(id: string): Option<string> {
    if Slash(id) < |id| then Some(id[..Slash(id)]) else None
  }

  function SenderMatches(memberId: string, sender: string): bool {
    sender != "" && (memberId == sender || (Slash(memberId) < |memberId| && memberId[Slash(memberId) + 1..] == sender))
  }

  function Jids(members: set<string>): set<string> {
    set m | m in members && ExtractJid(m).Some? :: ExtractJid(m).value
  }

  /** Is the tracked member no longer in the group? Tracked by client id if there is one, else by jid. */
  predicate Gone(info: MemberInfo, members: set<string>) {
    if info.clientId.Some? then info.clientId.value !in members
    else info.jid.Some? && info.jid.value !in Jids(members)
  }

  // ---------------------------------------------------------------- stored state and input

  datatype Op = CreateGroup | JoinByExternalCommit | LeaveGroup | UpdateTree | NoOp

  datatype Db = Db(groups: map<GroupId, Group>, status: map<GroupId, Op>)

  datatype Args = Args(group: GroupId, messages: seq<Message>, pendingEpoch: int, pendingTreeHash: seq<byte>)

  datatype LoadFault = LoadOk | LoadStorage | LoadOther

  /** What storage does during one group's turn. Failed deletions and writes of the status row are ignored by the
      code. */
  datatype Faults = Faults(load: bool, statusRead: bool, resolve: bool, statusDelete: bool, statusWrite: bool,
                           welcome: nat -> bool, reload: nat -> LoadFault, commit: nat -> bool)

  // ---------------------------------------------------------------- settling the pending operation

  /** `get_first_message`: the first commit labelled with the epoch the pending commit creates. An external join
      already stands in that epoch. */
  function FirstMessage(epoch: nat, messages: seq<Message>, op: Op): Option<Message> {
    var wanted := if op == JoinByExternalCommit then epoch else epoch + 1;
    FirstCommitLabelled(messages, wanted)
  }

  function FirstCommitLabelled(messages: seq<Message>, wanted: nat): Option<Message> {
    if messages == [] then None
    else if messages[0].epoch == wanted && messages[0].kind == CommitKind then Some(messages[0])
    else FirstCommitLabelled(messages[1..], wanted)
  }

  datatype Decision = Merge | Clear | Drop | Leave

  function Decide(g: Group, own: string, op: Op, args: Args): Decision {
    var first := FirstMessage(g.state.epoch, args.messages, op);
    var mine := first.Some? && SenderMatches(own, first.value.sender);
    match op
    case CreateGroup =>
      if g.state.epoch == 0 then
        if args.pendingEpoch != 0 then Leave
        else if g.state.treeHash == args.pendingTreeHash then Merge else Drop
      else if mine then Merge else Drop
    case JoinByExternalCommit => if mine then Merge else Drop
    case UpdateTree => if mine then Merge else Clear
    case LeaveGroup => Leave
    case NoOp => Leave
  }

  datatype Resolution = Error | Skip | Resolved(db: Db, held: Option<Group>, deleted: bool)

  /** The recorded pending operation; without a row there is none. */
  function StatusOf(db: Db, id: GroupId): Op {
    if id in db.status then db.status[id] else NoOp
  }

  /** A dropped group's status row is deleted first; then, as after every settling, it is set to no operation. */
  function SettledStatus(db: Db, id: GroupId, dropped: bool, f: Faults): map<GroupId, Op> {
    var s := if dropped && !f.statusDelete then db.status - {id} else db.status;
    if f.statusWrite then s else s[id := NoOp]
  }

  function Resolve(db: Db, args: Args, f: Faults): Resolution {
    if f.load || args.group !in db.groups then Resolved(db, None, false) else
    var g := db.groups[args.group];
    if g.own.None? then Skip
    else if f.statusRead then Error
    else
      var op := StatusOf(db, args.group);
      var decision := Decide(g, g.own.value, op, args);
      if decision == Leave then Resolved(db, Some(g), false)
      else if f.resolve then Error
      else
        var d := db.(status := SettledStatus(db, args.group, decision == Drop, f));
        match decision
        case Drop => Resolved(d.(groups := d.groups - {args.group}), None, true)
        case Merge => Resolved(d.(groups := d.groups[args.group := MergePending(g)]), Some(MergePending(g)), false)
        case _ => Resolved(d.(groups := d.groups[args.group := ClearPending(g)]), Some(ClearPending(g)), false)
  }

  // ---------------------------------------------------------------- first pass: removal proposals

  /** What one message of the first pass says about removals, given the group's members. */
  function Proposed(members: set<string>, msg: Message): Option<MemberInfo> {
    if msg.kind != Proposal then None
    else if msg.native.Some? then
      var p := msg.native.value;
      if p.isRemove && p.sender in members
      then Some(MemberInfo(ExtractJid(p.sender), Some(p.sender), Some(msg.sender))) else None
    else if msg.custom.Some? && msg.custom.value.jid.Some? && !msg.custom.value.readd
            && msg.custom.value.jid.value in Jids(members)
    then Some(MemberInfo(msg.custom.value.jid, None, None))
    else None
  }

  function Removals(held: Option<Group>, messages: seq<Message>): map<MemberInfo, nat> {
    if messages == [] || held.None? then map[] else
    var before := Removals(held, messages[..|messages| - 1]);
    var msg := messages[|messages| - 1];
    match Proposed(held.value.state.members, msg)
    case Some(info) => before[info := msg.epoch]
    case None => before
  }

  /** The highest commit label, or zero. */
  function LatestEpoch(messages: seq<Message>): nat {
    if messages == [] then 0 else
    var before, msg := LatestEpoch(messages[..|messages| - 1]), messages[|messages| - 1];
    if msg.epoch > before && msg.kind == CommitKind then msg.epoch else before
  }

  // ---------------------------------------------------------------- second pass: replay

  datatype Replay = Replay(groups: map<GroupId, Group>, held: Option<Group>, loaded: bool,
                           toRemove: map<MemberInfo, nat>, toReadd: set<MemberInfo>, error: bool)

  function StillTracked(toRemove: map<MemberInfo, nat>, held: Option<Group>, epoch: nat): map<MemberInfo, nat> {
    if held.None? then toRemove else
    map m | m in toRemove && !(epoch >= toRemove[m] && Gone(m, held.value.state.members)) :: toRemove[m]
  }

  function Abandon(r: Replay): Replay {
    r.(toRemove := map[], error := true)
  }

  /** The group the commit is applied to: reloaded once, when the load works. */
  function Reload(r: Replay, id: GroupId, fault: LoadFault): Replay {
    if r.loaded || fault != LoadOk || id !in r.groups then r else r.(held := Some(r.groups[id]), loaded := true)
  }

  function StepCommit(r: Replay, id: GroupId, msg: Message, reload: LoadFault, fails: bool): Replay {
    if r.held.None? then r.(toRemove := StillTracked(r.toRemove, r.held, msg.epoch))
    else if !r.loaded && reload == LoadStorage then Abandon(r)
    else
      var s := Reload(r, id, reload);
      if fails then Abandon(s)
      else
        var t := match Apply(s.held.value, msg.blob)
          case Some(g) => s.(held := Some(g), groups := s.groups[g.id := g])
          case None => s;
        t.(toRemove := StillTracked(t.toRemove, t.held, msg.epoch))
  }

  function ReaddInfo(msg: Message, c: Custom): MemberInfo {
    var jid := if c.jid.Some? then c.jid else if c.clientId.Some? then ExtractJid(c.clientId.value) else None;
    MemberInfo(jid, c.clientId, Some(msg.sender))
  }

  predicate IsReadd(msg: Message, latest: nat) {
    msg.kind == Proposal && msg.custom.Some? && msg.custom.value.readd && msg.epoch > latest
  }

  function StepMessage(r: Replay, id: GroupId, msg: Message, latest: nat, f: Faults, i: nat): Replay {
    if r.error then r else
    match msg.kind
    case Welcome =>
      if msg.welcome.Some? && !f.welcome(i)
      then r.(held := msg.welcome, groups := r.groups[msg.welcome.value.id := msg.welcome.value]) else r
    case CommitKind => StepCommit(r, id, msg, f.reload(i), f.commit(i))
    case Proposal => if IsReadd(msg, latest) then r.(toReadd := r.toReadd + {ReaddInfo(msg, msg.custom.value)}) else r
    case Unknown => r
  }

  function ReplayAll(r: Replay, id: GroupId, messages: seq<Message>, latest: nat, f: Faults): Replay {
    if messages == [] then r else
    var n := |messages| - 1;
    StepMessage(ReplayAll(r, id, messages[..n], latest, f), id, messages[n], latest, f, n)
  }

  // ---------------------------------------------------------------- one group, all groups

  datatype GroupResult = GroupResult(group: GroupId, toRemove: set<MemberInfo>, toReadd: set<MemberInfo>, error: bool)

  datatype Turn = TurnError | TurnSkipped | TurnDone(db: Db, result: GroupResult, deleted: bool)

  function Begin(db: Db, held: Option<Group>, messages: seq<Message>): Replay {
    Replay(db.groups, held, false, Removals(held, messages), {}, false)
  }

  function ProcessGroup(db: Db, args: Args, f: Faults): Turn {
    match Resolve(db, args, f)
    case Error => TurnError
    case Skip => TurnSkipped
    case Resolved(d, held, deleted) =>
      var r := ReplayAll(Begin(d, held, args.messages), args.group, args.messages, LatestEpoch(args.messages), f);
      TurnDone(d.(groups := r.groups), GroupResult(args.group, r.toRemove.Keys, r.toReadd, r.error), deleted)
  }

  /** The whole call: results in input order, deleted groups, and whether it ended early with an error. */
  datatype Batch = Batch(db: Db, results: seq<GroupResult>, deleted: seq<GroupId>, failed: bool)

  function ProcessAll(db: Db, input: seq<(Args, Faults)>): Batch {
    if input == [] then Batch(db, [], [], false) else
    var before, last := ProcessAll(db, input[..|input| - 1]), input[|input| - 1];
    if before.failed then before else
    match ProcessGroup(before.db, last.0, last.1)
    case TurnError => before.(failed := true)
    case TurnSkipped => before
    case TurnDone(d, result, gone) =>
      Batch(d, before.results + [result], before.deleted + (if gone then [last.0.group] else []), false)
  }

  // ---------------------------------------------------------------- the reconciler, changing state in place

  class Reconciler {
    var groups: map<GroupId, Group>
    var status: map<GroupId, Op>

    ghost function View(): Db
      reads this
    {
      Db(groups, status)
    }

    constructor (groups: map<GroupId, Group>, status: map<GroupId, Op>)
      ensures View() == Db(groups, status)
    {
      this.groups, this.status := groups, status;
    }

    method FindFirst(messages: seq<Message>, wanted: nat) returns (first: Option<Message>)
      ensures first == FirstCommitLabelled(messages, wanted)
    {
      var i := 0;
      assert messages[0..] == messages;
      while i < |messages|
        invariant 0 <= i <= |messages|
        invariant FirstCommitLabelled(messages, wanted) == FirstCommitLabelled(messages[i..], wanted)
      {
        if messages[i].epoch == wanted && messages[i].kind == CommitKind {
          return Some(messages[i]);
        }
        assert messages[i..][1..] == messages[i + 1..];
        i := i + 1;
      }
      return None;
    }

    method WriteStatus(id: GroupId, dropped: bool, f: Faults)
      modifies this`status
      ensures status == SettledStatus(old(View()), id, dropped, f)
    {
      if dropped && !f.statusDelete {
        status := status - {id};
      }
      if !f.statusWrite {
        status := status[id := NoOp];
      }
    }

    /** The three ways of settling, each in one transaction. */
    method Settle(id: GroupId, g: Group, decision: Decision) returns (held: Option<Group>)
      requires decision != Leave
      modifies this`groups
      ensures groups == match decision
                        case Drop => old(groups) - {id}
                        case Merge => old(groups)[id := MergePending(g)]
                        case _ => old(groups)[id := ClearPending(g)]
      ensures held == match decision
                      case Drop => None
                      case Merge => Some(MergePending(g))
                      case _ => Some(ClearPending(g))
    {
      if decision == Drop {
        groups := groups - {id};
        held := None;
      } else {
        held := Some(if decision == Merge then MergePending(g) else ClearPending(g));
        groups := groups[id := held.value];
      }
    }

    method ResolvePending(args: Args, f: Faults)
      returns (failed: bool, skipped: bool, held: Option<Group>, deleted: bool)
      modifies this
      ensures match Resolve(old(View()), args, f)
              case Error => failed && View() == old(View())
              case Skip => !failed && skipped && View() == old(View())
              case Resolved(d, h, del) => !failed && !skipped && View() == d && held == h && deleted == del
    {
      failed, skipped, held, deleted := false, false, None, false;
      if f.load || args.group !in groups { return; }
      var g := groups[args.group];
      held := Some(g);
      if g.own.None? {
        skipped := true;
        return;
      }
      var own := g.own.value;
      if f.statusRead {
        failed := true;
        return;
      }
      var op := if args.group in status then status[args.group] else NoOp;
      var wanted := if op == JoinByExternalCommit then g.state.epoch else g.state.epoch + 1;
      var first := FindFirst(args.messages, wanted);
      var decision := Leave;
      match op {
        case CreateGroup =>
          if g.state.epoch == 0 {
            if args.pendingEpoch == 0 {
              decision := if g.state.treeHash == args.pendingTreeHash then Merge else Drop;
            }
          } else if first.Some? {
            decision := if !SenderMatches(own, first.value.sender) then Drop else Merge;
          } else {
            decision := Drop;
          }
        case JoinByExternalCommit =>
          if first.Some? {
            decision := if !SenderMatches(own, first.value.sender) then Drop else Merge;
          } else {
            decision := Drop;
          }
        case UpdateTree =>
          if first.Some? {
            decision := if !SenderMatches(own, first.value.sender) then Clear else Merge;
          } else {
            decision := Clear;
          }
        case LeaveGroup =>
        case NoOp =>
      }
      if decision == Leave { return; }
      if f.resolve {
        failed := true;
        return;
      }
      held := Settle(args.group, g, decision);
      deleted := decision == Drop;
      WriteStatus(args.group, deleted, f);
    }

    /** The first pass: removal proposals by members, and the highest commit label. */
    method ScanProposals(held: Option<Group>, messages: seq<Message>)
      returns (toRemove: map<MemberInfo, nat>, latest: nat)
      ensures toRemove == Removals(held, messages) && latest == LatestEpoch(messages)
    {
      toRemove, latest := map[], 0;
      for i := 0 to |messages|
        invariant toRemove == Removals(held, messages[..i]) && latest == LatestEpoch(messages[..i])
      {
        assert messages[..i + 1][..i] == messages[..i];
        var msg := messages[i];
        if msg.epoch > latest && msg.kind == CommitKind {
          latest := msg.epoch;
        }
        if msg.kind == Proposal && held.Some? {
          var members := held.value.state.members;
          if msg.native.Some? {
            var p := msg.native.value;
            if p.isRemove && p.sender in members {
              toRemove := toRemove[MemberInfo(ExtractJid(p.sender), Some(p.sender), Some(msg.sender)) := msg.epoch];
            }
          } else if msg.custom.Some? {
            var c := msg.custom.value;
            if c.jid.Some? && !c.readd && c.jid.value in Jids(members) {
              toRemove := toRemove[MemberInfo(c.jid, None, None) := msg.epoch];
            }
          }
        }
      }
      assert messages[..|messages|] == messages;
    }

    /** A commit in the second pass: the held group is reloaded once, offered the commit, and the removals looked
        through. */
    method OfferCommit(id: GroupId, msg: Message, start: Option<Group>, startLoaded: bool,
                       removals: map<MemberInfo, nat>, reload: LoadFault, fails: bool, ghost readds: set<MemberInfo>)
      returns (held: Option<Group>, loaded: bool, toRemove: map<MemberInfo, nat>, error: bool)
      modifies this`groups
      ensures Replay(groups, held, loaded, toRemove, readds, error) ==
              StepCommit(Replay(old(groups), start, startLoaded, removals, readds, false), id, msg, reload, fails)
    {
      held, loaded, toRemove, error := start, startLoaded, removals, false;
      if held.Some? {
        if !loaded {
          if reload == LoadStorage {
            toRemove, error := map[], true;
            return;
          } else if reload == LoadOk && id in groups {
            held, loaded := Some(groups[id]), true;
          }
        }
        if fails {
          toRemove, error := map[], true;
          return;
        }
        var next := Apply(held.value, msg.blob);
        if next.Some? {
          held := next;
          groups := groups[next.value.id := next.value];
        }
      }
      if toRemove != map[] && held.Some? {
        var members := held.value.state.members;
        toRemove := map m | m in toRemove && !(msg.epoch >= toRemove[m] && Gone(m, members)) :: toRemove[m];
      }
    }

    /** The second pass over the held group. A storage failure ends it and withdraws all removals. */
    method ReplayBatch(id: GroupId, messages: seq<Message>, start: Option<Group>, removals: map<MemberInfo, nat>,
                       latest: nat, f: Faults)
      returns (toRemove: map<MemberInfo, nat>, toReadd: set<MemberInfo>, error: bool, held: Option<Group>)
      modifies this`groups
      ensures var r := ReplayAll(Replay(old(groups), start, false, removals, {}, false), id, messages, latest, f);
              groups == r.groups && toRemove == r.toRemove && toReadd == r.toReadd && error == r.error && held == r.held
    {
      toRemove, toReadd, error, held := removals, {}, false, start;
      var loaded := false;
      ghost var begin := Replay(groups, start, false, removals, {}, false);
      for i := 0 to |messages|
        invariant Replay(groups, held, loaded, toRemove, toReadd, error) ==
                  ReplayAll(begin, id, messages[..i], latest, f)
        invariant !error
      {
        ReplaySnoc(begin, id, messages, latest, f, i);
        var msg := messages[i];
        match msg.kind {
          case Welcome =>
            if msg.welcome.Some? && !f.welcome(i) {
              held := msg.welcome;
              groups := groups[held.value.id := held.value];
            }
          case CommitKind =>
            held, loaded, toRemove, error :=
              OfferCommit(id, msg, held, loaded, toRemove, f.reload(i), f.commit(i), toReadd);
            if error {
              ErrorIsFinal(begin, id, messages, latest, f, i + 1);
              return;
            }
          case Proposal =>
            if msg.custom.Some? && msg.custom.value.readd && msg.epoch > latest {
              toReadd := toReadd + {ReaddInfo(msg, msg.custom.value)};
            }
          case Unknown =>
        }
      }
      assert messages[..|messages|] == messages;
    }

    /** `process_all_messages`: group by group; a group whose own identity cannot be read is passed over, and an error
        while settling ends the call. */
    method ProcessAllMessages(input: seq<(Args, Faults)>)
      returns (failed: bool, results: seq<GroupResult>, deleted: seq<GroupId>)
      modifies this
      ensures var b := ProcessAll(old(View()), input);
              View() == b.db && failed == b.failed && results == b.results && deleted == b.deleted
    {
      failed, results, deleted := false, [], [];
      for i := 0 to |input|
        invariant ProcessAll(old(View()), input[..i]) == Batch(View(), results, deleted, false)
        invariant !failed
      {
        assert input[..i + 1][..i] == input[..i];
        var (args, f) := input[i];
        var skipped, held, gone;
        failed, skipped, held, gone := ResolvePending(args, f);
        if failed {
          FailureIsFinal(old(View()), input, i + 1);
          return;
        }
        if !skipped {
          if gone {
            deleted := deleted + [args.group];
          }
          var toRemove, latest := ScanProposals(held, args.messages);
          var toReadd, error, final;
          toRemove, toReadd, error, final := ReplayBatch(args.group, args.messages, held, toRemove, latest, f);
          results := results + [GroupResult(args.group, toRemove.Keys, toReadd, error)];
        }
      }
      assert input[..|input|] == input;
    }
  }

  lemma {:induction false} FailureIsFinal(db: Db, input: seq<(Args, Faults)>, n: nat)
    requires n <= |input| && ProcessAll(db, input[..n]).failed
    ensures ProcessAll(db, input) == ProcessAll(db, input[..n])
    decreases |input|
  {
    if n == |input| {
      assert input[..n] == input;
    } else {
      var init := input[..|input| - 1];
      assert init[..n] == input[..n];
      FailureIsFinal(db, init, n);
    }
  }

  lemma ReplaySnoc(r: Replay, id: GroupId, messages: seq<Message>, latest: nat, f: Faults, i: nat)
    requires i < |messages|
    ensures ReplayAll(r, id, messages[..i + 1], latest, f) ==
            StepMessage(ReplayAll(r, id, messages[..i], latest, f), id, messages[i], latest, f, i)
  {
    assert messages[..i + 1][..i] == messages[..i];
  }

  lemma {:induction false} ErrorIsFinal(r: Replay, id: GroupId, messages: seq<Message>, latest: nat, f: Faults, n: nat)
    requires n <= |messages| && ReplayAll(r, id, messages[..n], latest, f).error
    ensures ReplayAll(r, id, messages, latest, f) == ReplayAll(r, id, messages[..n], latest, f)
    decreases |messages|
  {
    if n == |messages| {
      assert messages[..n] == messages;
    } else {
      var init := messages[..|messages| - 1];
      assert init[..n] == messages[..n];
      ErrorIsFinal(r, id, init, latest, f, n);
    }
  }
}
