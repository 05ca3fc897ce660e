/** The write-ahead decrypt cache: crates/kchat-uniffi/src/mls/mod.rs, the cache table of
    crates/kchat-storage-provider/src/decrypted_application_messages.rs, and group deletion. */
module Wal {
  import opened Common

  type GroupId = string
  type MessageId = string
  type Bytes = seq<byte>

  /** A forward-secret ratchet key of a group: it can be used once. */
  datatype Key = Key(group: GroupId, id: nat)

  /** Primary key of the cache table; note that the provider version is not part of it. */
  datatype Slot = Slot(group: GroupId, message: MessageId)

  datatype Row = Row(version: nat, digest: Bytes, plaintext: Bytes, created: nat, expires: nat)

  /** The ratchet keys each stored group can still use, and the cache rows. */
  datatype Db = Db(keys: map<GroupId, set<nat>>, rows: map<Slot, Row>)

  /** The MLS library (which key a ciphertext needs, and what it decrypts to, if authentic), SHA-256,
      the time to live in seconds, and the provider version. */
  datatype Env = Env(
    keyOf: (GroupId, Bytes) -> nat,
    open: (GroupId, Bytes) -> Option<Bytes>,
    sha: Bytes -> Bytes,
    ttl: nat,
    version: nat)

  const I64_MAX: nat := 0x7fff_ffff_ffff_ffff

  // ---------------------------------------------------------------- configuration

  /** `ttl_seconds`, on u64 and i64; zero hours are refused by the constructor. */
  function TtlSeconds(hours: nat): (r: Option<nat>)
    requires hours < U64_RANGE
  {
    if hours == 0 then None
    else if hours * 3600 >= U64_RANGE then None
    else if hours * 3600 > I64_MAX then None
    else Some(hours * 3600)
  }

  /** Exactly the hours whose seconds fit i64 are accepted, as that many times sixty minutes of sixty seconds. */
  lemma TtlAccepted(hours: nat)
    requires hours < U64_RANGE
    ensures TtlSeconds(hours).Some? <==> 1 <= hours <= 2_562_047_788_015_215
    ensures TtlSeconds(hours).Some? ==> 0 < TtlSeconds(hours).value < 0x8000_0000_0000_0000
    ensures TtlSeconds(hours).Some? ==>
              TtlSeconds(hours).value / 60 / 60 == hours && TtlSeconds(hours).value % 3600 == 0
  {
  }

  // ---------------------------------------------------------------- table operations

  /** A row is returned while `expires_at > now`, and only to the version that wrote it. */
  function Load(env: Env, rows: map<Slot, Row>, slot: Slot, now: nat): Option<Row> {
    if slot in rows && rows[slot].version == env.version && rows[slot].expires > now then Some(rows[slot]) else None
  }

  /** The conditional upsert: a row is overwritten only if it expired before the new one was created. */
  function Upsert(rows: map<Slot, Row>, slot: Slot, row: Row): map<Slot, Row> {
    if slot in rows && rows[slot].expires > row.created then rows else rows[slot := row]
  }

  function PruneRows(env: Env, rows: map<Slot, Row>, now: nat): map<Slot, Row> {
    map s | s in rows && !(rows[s].version == env.version && rows[s].expires <= now) :: rows[s]
  }

  function DeleteRows(env: Env, rows: map<Slot, Row>, group: GroupId): map<Slot, Row> {
    map s | s in rows && !(rows[s].version == env.version && s.group == group) :: rows[s]
  }

  // ---------------------------------------------------------------- operations

  datatype Outcome = Plain(plaintext: Bytes) | Conflict | Failed | InvalidTtl

  datatype Step = Step(db: Db, outcome: Outcome)

  /** The library decrypts if the group is stored, the message authentic and its key still there. */
  function Decrypt(env: Env, db: Db, group: GroupId, message: Bytes): Option<Bytes> {
    if group in db.keys && env.keyOf(group, message) in db.keys[group] then env.open(group, message) else None
  }

  function Consume(env: Env, keys: map<GroupId, set<nat>>, group: GroupId, message: Bytes): map<GroupId, set<nat>>
    requires group in keys
  {
    keys[group := keys[group] - {env.keyOf(group, message)}]
  }

  function NewRow(env: Env, now: nat, message: Bytes, plaintext: Bytes): Row {
    Row(env.version, env.sha(message), plaintext, now, now + env.ttl)
  }

  /** `process_application_message_with_wal`, when nothing interrupts its transaction. */
  function Process(env: Env, db: Db, now: nat, slot: Slot, message: Bytes): Step {
    if now + env.ttl > I64_MAX then Step(db, InvalidTtl) else
    match Load(env, db.rows, slot, now)
    case Some(row) => Step(db, if row.digest != env.sha(message) then Conflict else Plain(row.plaintext))
    case None =>
      match Decrypt(env, db, slot.group, message)
      case None => Step(db, Failed)
      case Some(plaintext) =>
        var row := NewRow(env, now, message, plaintext);
        Step(Db(Consume(env, db.keys, slot.group, message), Upsert(db.rows, slot, row)), Plain(plaintext))
  }

  function Prune(env: Env, db: Db, now: nat): Db {
    db.(rows := PruneRows(env, db.rows, now))
  }

  function Delete(env: Env, db: Db, group: GroupId): Db {
    Db(db.keys - {group}, DeleteRows(env, db.rows, group))
  }

  /** The group is gone: neither its keys nor a row of the own version is left. All other keys, and all rows of other
      groups or other versions, are as before, and nothing has appeared. */
  ghost predicate Deleted(env: Env, before: Db, after: Db, group: GroupId) {
    && group !in after.keys
    && (forall g :: g != group ==> (g in after.keys <==> g in before.keys))
    && (forall g :: g in after.keys ==> after.keys[g] == before.keys[g])
    && (forall s :: s in after.rows ==> !(s.group == group && after.rows[s].version == env.version))
    && (forall s :: s in before.rows && (s.group != group || before.rows[s].version != env.version) ==> s in after.rows)
    && (forall s :: s in after.rows ==> s in before.rows && after.rows[s] == before.rows[s])
  }

  // ---------------------------------------------------------------- what a call does

  /** A row of the own version, not expired. */
  predicate Live(env: Env, db: Db, slot: Slot, now: nat) {
    slot in db.rows && db.rows[slot].version == env.version && db.rows[slot].expires > now
  }

  /** The ciphertext can be decrypted: its group is stored with its key unused, and it is authentic. */
  predicate Decryptable(env: Env, db: Db, group: GroupId, message: Bytes) {
    group in db.keys && env.keyOf(group, message) in db.keys[group] && env.open(group, message).Some?
  }

  /** The outcome of an uninterrupted call: an expiry beyond i64 is refused; a live row answers for its own
      ciphertext and conflicts with any other; without one the ciphertext is decrypted if it can be. Only the last
      of these changes anything: it spends that one key, and touches no slot but its own. */
  lemma CallLaw(env: Env, db: Db, now: nat, slot: Slot, message: Bytes)
    ensures var step := Process(env, db, now, slot, message);
            if now + env.ttl >= 0x8000_0000_0000_0000 then step == Step(db, InvalidTtl)
            else if Live(env, db, slot, now) then
              var row := db.rows[slot];
              step == Step(db, if row.digest == env.sha(message) then Plain(row.plaintext) else Conflict)
            else if !Decryptable(env, db, slot.group, message) then step == Step(db, Failed)
            else
              && step.outcome == Plain(env.open(slot.group, message).value)
              && step.db.keys.Keys == db.keys.Keys
              && (forall g :: g in db.keys && g != slot.group ==> step.db.keys[g] == db.keys[g])
              && step.db.keys[slot.group] == db.keys[slot.group] - {env.keyOf(slot.group, message)}
              && (forall s :: s != slot ==> (s in step.db.rows <==> s in db.rows))
              && (forall s :: s != slot && s in db.rows ==> step.db.rows[s] == db.rows[s])
  {
  }

  // ---------------------------------------------------------------- the store, changed in place

  class Store {
    const env: Env
    /** May storage fail in the middle of a transaction? */
    const faulty: bool
    var keys: map<GroupId, set<nat>>
    var rows: map<Slot, Row>

    constructor (env: Env, faulty: bool)
      ensures this.env == env && this.faulty == faulty && keys == map[] && rows == map[]
    {
      this.env, this.faulty, keys, rows := env, faulty, map[], map[];
    }

    ghost function View(): Db
      reads this
    {
      Db(keys, rows)
    }

    method Interrupted() returns (b: bool)
      ensures b ==> faulty
    {
      b := *;
      b := b && faulty;
    }

    method InsertRow(slot: Slot, row: Row)
      modifies this`rows
      ensures rows == Upsert(old(rows), slot, row)
    {
      if !(slot in rows && rows[slot].expires > row.created) {
        rows := rows[slot := row];
      }
    }

    /** One transaction: load, or decrypt and insert. Any storage failure on the way rolls everything back. */
    method ProcessWithWal(now: nat, slot: Slot, message: Bytes) returns (outcome: Outcome)
      modifies this
      ensures Step(View(), outcome) == Process(env, old(View()), now, slot, message) ||
              (faulty && outcome == Failed && View() == old(View()))
    {
      if now + env.ttl > I64_MAX {
        return InvalidTtl;
      }
      var digest := env.sha(message);
      var savedKeys, savedRows := keys, rows;
      var broken := Interrupted();
      if broken { return Failed; }
      var entry := Load(env, rows, slot, now);
      if entry.Some? {
        broken := Interrupted();
        if broken { return Failed; }
        return if entry.value.digest != digest then Conflict else Plain(entry.value.plaintext);
      }
      var decrypted := Decrypt(env, Db(keys, rows), slot.group, message);
      if decrypted.None? { return Failed; }
      keys := Consume(env, keys, slot.group, message);
      broken := Interrupted();
      if broken {
        keys, rows := savedKeys, savedRows;
        return Failed;
      }
      InsertRow(slot, Row(env.version, digest, decrypted.value, now, now + env.ttl));
      broken := Interrupted();
      if broken {
        keys, rows := savedKeys, savedRows;
        return Failed;
      }
      return Plain(decrypted.value);
    }

    /** Afterwards no row of the own version is dead, rows of other versions are all there, and no load from `now`
        on can tell the difference. */
    method PruneExpired(now: nat) returns (ok: bool)
      modifies this`rows
      ensures rows == if ok then PruneRows(env, old(rows), now) else old(rows)
      ensures ok ==>
                forall s :: s in rows && rows[s].version == env.version ==> Load(env, rows, s, now) == Some(rows[s])
      ensures forall s :: s in old(rows) && old(rows)[s].version != env.version ==> s in rows && rows[s] == old(rows)[s]
      ensures forall s, t :: t >= now ==> Load(env, rows, s, t) == Load(env, old(rows), s, t)
      ensures !ok ==> faulty
    {
      var broken := Interrupted();
      if broken { return false; }
      rows := map s | s in rows && !(rows[s].version == env.version && rows[s].expires <= now) :: rows[s];
      return true;
    }

    /** One deletion transaction over all group-scoped tables: the group and its rows of the own version go, everything
        else stays, or nothing changes. */
    method TryDelete(group: GroupId) returns (ok: bool)
      modifies this
      ensures View() == if ok then Delete(env, old(View()), group) else old(View())
      ensures ok ==> Deleted(env, old(View()), View(), group)
      ensures !ok ==> faulty
    {
      var savedKeys := keys;
      keys := keys - {group};
      var broken := Interrupted();
      if broken {
        keys := savedKeys;
        return false;
      }
      rows := map s | s in rows && !(rows[s].version == env.version && s.group == group) :: rows[s];
      return true;
    }

    /** `delete_group`: a recoverable failure is retried once on a fresh connection. */
    method DeleteGroup(group: GroupId) returns (ok: bool)
      modifies this
      ensures View() == if ok then Delete(env, old(View()), group) else old(View())
      ensures ok ==> Deleted(env, old(View()), View(), group)
      ensures !ok ==> faulty
    {
      ok := TryDelete(group);
      if !ok {
        var recoverable: bool := *;
        if recoverable {
          ok := TryDelete(group);
        }
      }
    }
  }

  // ---------------------------------------------------------------- the upsert after a miss

  /** A live row of another provider version holds the slot. */
  predicate Blocked(env: Env, rows: map<Slot, Row>, slot: Slot, now: nat) {
    slot in rows && rows[slot].version != env.version && rows[slot].expires > now
  }

  /** After a miss the upsert takes effect except in exactly one case: a live row of another provider version
      holds the slot. It is invisible to the load, yet blocks the write. */
  lemma UpsertAfterMiss(env: Env, rows: map<Slot, Row>, slot: Slot, now: nat, row: Row)
    requires Load(env, rows, slot, now) == None && row.created == now && row.version == env.version
    ensures slot in Upsert(rows, slot, row) && Upsert(rows, slot, row)[slot] == row <==>
            !Blocked(env, rows, slot, now)
    ensures Blocked(env, rows, slot, now) ==> Upsert(rows, slot, row) == rows
  {
  }

  /** A concrete instance of that case: the call succeeds, the key is gone, and nothing was cached. */
  lemma OtherVersionRowLosesTheCache(env: Env, group: GroupId, id: MessageId, message: Bytes, plaintext: Bytes)
    requires env.open(group, message) == Some(plaintext) && env.ttl <= 1000
    ensures var k, slot := env.keyOf(group, message), Slot(group, id);
            var other := Row(env.version + 1, [], [], 0, 10);
            var db := Db(map[group := {k}], map[slot := other]);
            var step := Process(env, db, 5, slot, message);
            && step.outcome == Plain(plaintext)
            && step.db == Db(map[group := {}], map[slot := other])
            && Process(env, step.db, 6, slot, message).outcome == Failed
  {
    var k, slot := env.keyOf(group, message), Slot(group, id);
    var db := Db(map[group := {k}], map[slot := Row(env.version + 1, [], [], 0, 10)]);
    assert {k} - {k} == {};
    assert Consume(env, db.keys, group, message) == map[group := {}];
  }
}
