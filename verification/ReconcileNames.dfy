/** What member ids, jids and sender fields mean to the reconciler, said without its string functions: a member id is
    a jid, a slash and a device name, or has no jid at all. */
module ReconcileNames {
  import opened Common
  import opened Reconcile

  /** The member id is this jid, a slash and a rest. */
  predicate IsJidOf(jid: string, id: string) {
    '/' !in jid && jid + "/" <= id
  }

  /** Some member has this jid. */
  ghost predicate HasJid(members: set<string>, jid: string) {
    exists id :: id in members && IsJidOf(jid, id)
  }

  /** The sender field is the whole member id, or all of it after its first slash; an empty one names nobody. */
  predicate Names(id: string, sender: string) {
    sender != "" && (id == sender || IsDeviceOf(id, sender))
  }

  predicate IsDeviceOf(id: string, device: string) {
    |id| > |device| &&
    var jid := id[..|id| - |device| - 1];
    '/' !in jid && id == jid + "/" + device
  }

  /** The tracked member is in the group: by its client id if it has one, else by its jid, else in any case. */
  ghost predicate StillMember(info: MemberInfo, members: set<string>) {
    match info.clientId
    case Some(id) => id in members
    case None => info.jid.Some? ==> HasJid(members, info.jid.value)
  }

  lemma JidLaw(id: string, jid: string)
    ensures ExtractJid(id) == Some(jid) <==> IsJidOf(jid, id)
  {
    var n := Slash(id);
    if n < |id| {
      assert id[..n] + "/" == id[..n + 1];
    }
    if IsJidOf(jid, id) {
      assert id[|jid|] == (jid + "/")[|jid|] == '/';
      assert forall k :: 0 <= k < |jid| ==> id[k] == (jid + "/")[k] == jid[k];
      assert n == |jid| && id[..n] == jid;
    }
  }

  lemma JidsLaw(members: set<string>, jid: string)
    ensures jid in Jids(members) <==> HasJid(members, jid)
  {
    if jid in Jids(members) {
      var id :| id in members && ExtractJid(id).Some? && ExtractJid(id).value == jid;
      JidLaw(id, jid);
    }
    if HasJid(members, jid) {
      var id :| id in members && IsJidOf(jid, id);
      JidLaw(id, jid);
    }
  }

  lemma SenderLaw(id: string, sender: string)
    ensures SenderMatches(id, sender) <==> Names(id, sender)
  {
    var n := Slash(id);
    if n < |id| {
      assert id == id[..n] + "/" + id[n + 1..];
    }
    if IsDeviceOf(id, sender) {
      var jid := id[..|id| - |sender| - 1];
      assert id[|jid|] == (jid + "/" + sender)[|jid|] == '/';
      assert n == |jid|;
      assert id[n + 1..] == sender;
    }
  }

  lemma GoneLaw(info: MemberInfo, members: set<string>)
    ensures Gone(info, members) <==> !StillMember(info, members)
  {
    if info.clientId.None? && info.jid.Some? {
      JidsLaw(members, info.jid.value);
    }
  }

  // ---------------------------------------------------------------- proposals

  /** A message that asks for the removal of a member, and how that member is then known. A native proposal is about
      its sender, a custom one about a jid; both count only while the group has such a member. */
  ghost predicate ProposesRemoval(members: set<string>, msg: Message, m: MemberInfo) {
    msg.kind == Proposal &&
    match msg.native
    case Some(p) =>
      && p.isRemove && p.sender in members && m.clientId == Some(p.sender) && m.fingerprint == Some(msg.sender)
      && JidIs(m.jid, p.sender)
    case None =>
      && msg.custom.Some? && !msg.custom.value.readd && msg.custom.value.jid.Some?
      && HasJid(members, msg.custom.value.jid.value)
      && m == MemberInfo(msg.custom.value.jid, None, None)
  }

  /** The jid of a member id, if it has one. */
  ghost predicate JidIs(jid: Option<string>, id: string) {
    match jid
    case Some(j) => IsJidOf(j, id)
    case None => '/' !in id
  }

  lemma JidIsExtracted(jid: Option<string>, id: string)
    ensures jid == ExtractJid(id) <==> JidIs(jid, id)
  {
    if jid.Some? {
      JidLaw(id, jid.value);
    }
  }

  lemma ProposedLaw(members: set<string>, msg: Message, m: MemberInfo)
    ensures Proposed(members, msg) == Some(m) <==> ProposesRemoval(members, msg, m)
  {
    if msg.native.Some? {
      JidIsExtracted(m.jid, msg.native.value.sender);
    } else if msg.custom.Some? && msg.custom.value.jid.Some? {
      JidsLaw(members, msg.custom.value.jid.value);
    }
  }

  /** A message that asks for a member to be added again, and how that member is known: under the jid the proposal
      gives, or else that of its client id. */
  ghost predicate ProposesReadd(msg: Message, m: MemberInfo) {
    && msg.kind == Proposal && msg.custom.Some? && msg.custom.value.readd
    && m.fingerprint == Some(msg.sender) && m.clientId == msg.custom.value.clientId
    && (if msg.custom.value.jid.Some? then m.jid == msg.custom.value.jid
        else if m.clientId.Some? then JidIs(m.jid, m.clientId.value)
        else m.jid == None)
  }

  /** Labelled above every commit of the batch, and above zero. */
  ghost predicate AboveAllCommits(messages: seq<Message>, i: nat)
    requires i < |messages|
  {
    messages[i].epoch > 0 &&
    forall j :: 0 <= j < |messages| && messages[j].kind == CommitKind ==> messages[j].epoch < messages[i].epoch
  }

  lemma ReaddLaw(msg: Message, latest: nat, m: MemberInfo)
    ensures IsReadd(msg, latest) && ReaddInfo(msg, msg.custom.value) == m <==>
            ProposesReadd(msg, m) && msg.epoch > latest
  {
    if msg.custom.Some? && msg.custom.value.clientId.Some? {
      JidIsExtracted(m.jid, msg.custom.value.clientId.value);
    }
  }

  // ---------------------------------------------------------------- the slot

  /** Message `i` is the first commit of the batch with this label. */
  ghost predicate FirstAt(messages: seq<Message>, wanted: nat, i: nat) {
    && i < |messages| && messages[i].kind == CommitKind && messages[i].epoch == wanted
    && forall j :: 0 <= j < i ==> !(messages[j].kind == CommitKind && messages[j].epoch == wanted)
  }

  /** The first commit with this label names the client as its sender. */
  ghost predicate SlotNames(messages: seq<Message>, wanted: nat, own: string) {
    exists i: nat :: FirstAt(messages, wanted, i) && Names(own, messages[i].sender)
  }

  lemma {:induction false} SlotLaw(messages: seq<Message>, wanted: nat, own: string)
    ensures SlotNames(messages, wanted, own) <==>
            && FirstCommitLabelled(messages, wanted).Some?
            && SenderMatches(own, FirstCommitLabelled(messages, wanted).value.sender)
  {
    if messages != [] {
      var rest := messages[1..];
      SenderLaw(own, messages[0].sender);
      if messages[0].kind == CommitKind && messages[0].epoch == wanted {
        assert FirstAt(messages, wanted, 0);
        assert forall i: nat :: FirstAt(messages, wanted, i) ==> i == 0;
      } else {
        SlotLaw(rest, wanted, own);
        forall i: nat
          ensures FirstAt(messages, wanted, i + 1) <==> FirstAt(rest, wanted, i)
        {
          FirstAtTail(messages, wanted, i);
        }
        assert !FirstAt(messages, wanted, 0);
        if SlotNames(messages, wanted, own) {
          var i: nat :| FirstAt(messages, wanted, i) && Names(own, messages[i].sender);
          assert FirstAt(rest, wanted, i - 1) && rest[i - 1] == messages[i];
        }
        if SlotNames(rest, wanted, own) {
          var i: nat :| FirstAt(rest, wanted, i) && Names(own, rest[i].sender);
          assert FirstAt(messages, wanted, i + 1) && rest[i] == messages[i + 1];
        }
      }
    }
  }

  lemma FirstAtTail(messages: seq<Message>, wanted: nat, i: nat)
    requires messages != [] && !(messages[0].kind == CommitKind && messages[0].epoch == wanted)
    ensures FirstAt(messages, wanted, i + 1) <==> FirstAt(messages[1..], wanted, i)
  {
    var rest := messages[1..];
    assert forall j :: 0 <= j < |rest| ==> rest[j] == messages[j + 1];
    if FirstAt(rest, wanted, i) {
      forall j | 0 <= j < i + 1
        ensures !(messages[j].kind == CommitKind && messages[j].epoch == wanted)
      {
        if j > 0 {
          assert rest[j - 1] == messages[j];
        }
      }
    }
  }
}
