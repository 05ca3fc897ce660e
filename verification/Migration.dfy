/** The resumable migration of legacy message secrets into per-epoch rows:
    crates/uq-openmls/src/provider/sqlite_provider.rs and
    crates/kchat-storage-provider/src/group_epoch_message_secrets.rs. */
module Migration {
  import opened Common

  type GroupId = string
  type Bytes = seq<byte>

  const BATCH: nat := 20

  /** A legacy row. Its stored group id may fail to decode. */
  datatype Legacy = Legacy(group: GroupId, blob: Bytes, readable: bool)

  /** What the library exports from a legacy row: an error, nothing, or epoch-keyed secrets. */
  datatype Snapshot = Broken | Absent | Entries(entries: seq<(nat, Bytes)>)

  datatype Env = Env(snapshot: (GroupId, Bytes) -> Snapshot)

  /** Legacy rows, newest rowid first (one per group), the epoch rows, and the done flag. */
  datatype Db = Db(legacy: seq<Legacy>, epochs: map<GroupId, map<nat, Bytes>>, done: bool)
  {
    ghost predicate Valid() {
      forall i, j :: 0 <= i < j < |legacy| ==> legacy[i].group != legacy[j].group
    }
  }

  predicate Migratable(env: Env, row: Legacy) {
    env.snapshot(row.group, row.blob).Entries?
  }

  // ---------------------------------------------------------------- replacing epoch rows

  /** Inserting entries in order with upserts: the last one for an epoch wins. */
  function Latest(entries: seq<(nat, Bytes)>): map<nat, Bytes> {
    if entries == [] then map[] else
    var last := entries[|entries| - 1];
    Latest(entries[..|entries| - 1])[last.0 := last.1]
  }

  /** An epoch is present exactly if some entry has it, with the bytes of its last entry. */
  lemma {:induction false} LatestIsLastEntry(entries: seq<(nat, Bytes)>, i: nat)
    requires i < |entries| && forall j :: i < j < |entries| ==> entries[j].0 != entries[i].0
    ensures entries[i].0 in Latest(entries) && Latest(entries)[entries[i].0] == entries[i].1
  {
    if i < |entries| - 1 {
      var init := entries[..|entries| - 1];
      LatestIsLastEntry(init, i);
    }
  }

  lemma {:induction false} LatestHasOnlyEntries(entries: seq<(nat, Bytes)>, epoch: nat)
    requires epoch in Latest(entries)
    ensures exists i :: 0 <= i < |entries| && entries[i].0 == epoch
  {
    var n := |entries| - 1;
    if entries[n].0 != epoch {
      LatestHasOnlyEntries(entries[..n], epoch);
      var i :| 0 <= i < n && entries[..n][i].0 == epoch;
      assert entries[i].0 == epoch;
    }
  }

  // ---------------------------------------------------------------- a start, as a function

  /** The groups in `picked` that can be migrated lose their legacy row and get their snapshot's epoch rows. */
  function Remaining(env: Env, legacy: seq<Legacy>, picked: set<GroupId>): seq<Legacy> {
    if legacy == [] then [] else
    (if legacy[0].group in picked && Migratable(env, legacy[0]) then [] else [legacy[0]])
      + Remaining(env, legacy[1..], picked)
  }

  /** The snapshots of the migratable rows among `picked`. */
  function Exported(env: Env, legacy: seq<Legacy>, picked: set<GroupId>): map<GroupId, map<nat, Bytes>> {
    if legacy == [] then map[] else
    var rest := Exported(env, legacy[1..], picked);
    if legacy[0].group in picked && Migratable(env, legacy[0])
    then rest[legacy[0].group := Latest(env.snapshot(legacy[0].group, legacy[0].blob).entries)]
    else rest
  }

  function Migrate(env: Env, db: Db, picked: set<GroupId>): Db {
    Db(Remaining(env, db.legacy, picked), db.epochs + Exported(env, db.legacy, picked), db.done)
  }

  /** The newest rows, at most twenty. */
  function Batch(db: Db): (b: seq<Legacy>)
    ensures |b| <= BATCH && b <= db.legacy
  {
    db.legacy[..Min(BATCH, |db.legacy|)]
  }

  predicate Listable(db: Db) {
    forall i :: 0 <= i < |Batch(db)| ==> Batch(db)[i].readable
  }

  function Groups(rows: seq<Legacy>): set<GroupId> {
    set i | 0 <= i < |rows| :: rows[i].group
  }

  /** One start that got through the transactions of the groups in `picked` before faults or a crash took the
      others, and then either did or did not get to look at the done flag. */
  function AfterStart(env: Env, db: Db, picked: set<GroupId>, looked: bool): Db {
    if db.done || !Listable(db) then db else
    var d := Migrate(env, db, picked * Groups(Batch(db)));
    d.(done := d.done || (looked && d.legacy == []))
  }

  /** A start that nothing interrupts. */
  function CleanStart(env: Env, db: Db): Db {
    AfterStart(env, db, Groups(Batch(db)), true)
  }

  // ---------------------------------------------------------------- the store, changed in place

  /** Index of a group's legacy row. */
  function Find(legacy: seq<Legacy>, group: GroupId): (i: nat)
    ensures i <= |legacy| && (i < |legacy| ==> legacy[i].group == group)
    ensures forall j :: 0 <= j < i ==> legacy[j].group != group
  {
    if legacy == [] || legacy[0].group == group then 0 else 1 + Find(legacy[1..], group)
  }

  class Store {
    const env: Env
    /** May storage fail, or the process stop, anywhere? */
    const faulty: bool
    var legacy: seq<Legacy>
    var epochs: map<GroupId, map<nat, Bytes>>
    var done: bool

    ghost function View(): Db
      reads this
    {
      Db(legacy, epochs, done)
    }

    constructor (env: Env, faulty: bool, legacy: seq<Legacy>, epochs: map<GroupId, map<nat, Bytes>>)
      ensures this.env == env && this.faulty == faulty && View() == Db(legacy, epochs, false)
    {
      this.env, this.faulty, this.legacy, this.epochs, done := env, faulty, legacy, epochs, false;
    }

    method Interrupted() returns (b: bool)
      ensures b ==> faulty
    {
      b := *;
      b := b && faulty;
    }

    /** `replace_in_tx`: delete the group's rows, then upsert the entries one by one. */
    method ReplaceEpochs(group: GroupId, entries: seq<(nat, Bytes)>) returns (ok: bool)
      modifies this`epochs
      ensures ok ==> epochs == old(epochs)[group := Latest(entries)]
      ensures !ok ==> faulty
    {
      epochs := epochs[group := map[]];
      for i := 0 to |entries|
        invariant epochs == old(epochs)[group := Latest(entries[..i])]
      {
        var broken := Interrupted();
        if broken { return false; }
        assert entries[..i + 1][..i] == entries[..i];
        epochs := epochs[group := epochs[group][entries[i].0 := entries[i].1]];
      }
      assert entries[..|entries|] == entries;
      return true;
    }

    /** One group in one transaction; anything but a complete migration changes nothing. A group without a legacy
        row has no snapshot to export. */
    method MigrateGroup(group: GroupId) returns (ok: bool)
      requires View().Valid()
      modifies this`legacy, this`epochs
      ensures View() == old(View()) || View() == Migrate(env, old(View()), {group})
      ensures !faulty ==> View() == Migrate(env, old(View()), {group})
      ensures Find(old(legacy), group) == |old(legacy)| ==> ok && View() == old(View())
      ensures !faulty ==>
                (!ok <==>
                   var i := Find(old(legacy), group);
                   i < |old(legacy)| && env.snapshot(group, old(legacy)[i].blob).Broken?)
    {
      var savedEpochs := epochs;
      var i := Find(legacy, group);
      if i == |legacy| {
        Untouched(env, legacy, {group});
        assert epochs + map[] == epochs;
        return true;
      }
      SingleGroup(env, View(), i);
      match env.snapshot(group, legacy[i].blob)
      case Broken => return false;
      case Absent => return true;
      case Entries(entries) =>
        ok := ReplaceEpochs(group, entries);
        if ok {
          var broken := Interrupted();
          ok := !broken;
        }
        if !ok {
          epochs := savedEpochs;
          return;
        }
        legacy := legacy[..i] + legacy[i + 1..];
    }

    /** One start. Its outcome is that of some set of completed group transactions; without faults, all of them. */
    method TryMigrate() returns (ghost picked: set<GroupId>, ghost looked: bool)
      requires View().Valid()
      modifies this
      ensures View() == AfterStart(env, old(View()), picked, looked)
      ensures !faulty ==> View() == CleanStart(env, old(View()))
    {
      picked, looked := {}, false;
      NothingPicked(env, View());
      var broken := Interrupted();
      if broken || done { return; }
      var batch := Batch(Db(legacy, epochs, done));
      if exists i :: 0 <= i < |batch| && !batch[i].readable { return; }
      looked := true;
      if batch == [] {
        broken := Interrupted();
        looked := !broken;
        done := !broken;
        return;
      }
      broken, picked := MigrateBatch(batch);
      if !broken {
        broken := Interrupted();
      }
      if broken {
        looked := false;
        return;
      }
      if legacy == [] {
        done := true;
      }
    }

    /** The groups of the batch, one transaction each; a stop in between leaves the others. */
    method MigrateBatch(batch: seq<Legacy>) returns (broken: bool, ghost picked: set<GroupId>)
      requires View().Valid()
      modifies this`legacy, this`epochs
      ensures broken ==> faulty
      ensures picked * Groups(batch) == picked && View() == Migrate(env, old(View()), picked)
      ensures !faulty ==> picked == Groups(batch)
    {
      broken, picked := false, {};
      NothingPicked(env, View());
      for i := 0 to |batch|
        invariant !broken && picked <= Groups(batch[..i])
        invariant View() == Migrate(env, old(View()), picked)
        invariant !faulty ==> picked == Groups(batch[..i])
      {
        broken := Interrupted();
        if broken {
          PickedFromBatch(picked, batch, i);
          return;
        }
        ghost var before := View();
        MigrateValid(env, old(View()), picked);
        MigrateCompose(env, old(View()), picked, {batch[i].group});
        GroupsSnoc(batch, i);
        var ok := MigrateGroup(batch[i].group);
        if View() != before || !faulty {
          picked := picked + {batch[i].group};
        }
      }
      PickedFromBatch(picked, batch, |batch|);
      assert batch[..|batch|] == batch;
    }
  }

  lemma NothingPicked(env: Env, db: Db)
    ensures Migrate(env, db, {}) == db && AfterStart(env, db, {}, false) == db
  {
    Untouched(env, db.legacy, {});
    assert db.epochs + map[] == db.epochs;
    assert {} * Groups(Batch(db)) == {};
  }

  lemma GroupsSnoc(rows: seq<Legacy>, i: nat)
    requires i < |rows|
    ensures Groups(rows[..i + 1]) == Groups(rows[..i]) + {rows[i].group}
  {
    forall g | g in Groups(rows[..i + 1])
      ensures g in Groups(rows[..i]) + {rows[i].group}
    {
      var j :| 0 <= j < i + 1 && rows[..i + 1][j].group == g;
      if j < i {
        assert rows[..i][j].group == g;
      }
    }
    forall g | g in Groups(rows[..i]) + {rows[i].group}
      ensures g in Groups(rows[..i + 1])
    {
      if g in Groups(rows[..i]) {
        var j :| 0 <= j < i && rows[..i][j].group == g;
        assert rows[..i + 1][j].group == g;
      } else {
        assert rows[..i + 1][i].group == g;
      }
    }
  }

  lemma PickedFromBatch(picked: set<GroupId>, batch: seq<Legacy>, i: nat)
    requires i <= |batch| && picked <= Groups(batch[..i])
    ensures picked * Groups(batch) == picked
  {
    forall g | g in picked
      ensures g in Groups(batch)
    {
      var j :| 0 <= j < i && batch[..i][j].group == g;
      assert batch[j].group == g;
    }
  }

  /** Two rounds of migration are one. */
  lemma MigrateCompose(env: Env, db: Db, first: set<GroupId>, second: set<GroupId>)
    ensures Migrate(env, Migrate(env, db, first), second) == Migrate(env, db, first + second)
  {
    RemainingCompose(env, db.legacy, first, second);
    ExportedCompose(env, db.legacy, first, second);
    var e, e' := Exported(env, db.legacy, first), Exported(env, Remaining(env, db.legacy, first), second);
    assert db.epochs + e + e' == db.epochs + (e + e');
  }

  lemma {:induction false} RemainingCompose(env: Env, legacy: seq<Legacy>, first: set<GroupId>, second: set<GroupId>)
    ensures Remaining(env, Remaining(env, legacy, first), second) == Remaining(env, legacy, first + second)
    decreases |legacy|
  {
    if legacy != [] {
      RemainingCompose(env, legacy[1..], first, second);
      var rest := Remaining(env, legacy[1..], first);
      assert ([legacy[0]] + rest)[1..] == rest && [] + rest == rest;
    }
  }

  lemma {:induction false} ExportedCompose(env: Env, legacy: seq<Legacy>, first: set<GroupId>, second: set<GroupId>)
    ensures Exported(env, legacy, first) + Exported(env, Remaining(env, legacy, first), second) ==
            Exported(env, legacy, first + second)
    decreases |legacy|
  {
    if legacy != [] {
      ExportedCompose(env, legacy[1..], first, second);
      var rest := Remaining(env, legacy[1..], first);
      var row := legacy[0];
      var e, e' := Exported(env, legacy[1..], first), Exported(env, rest, second);
      if row.group in first && Migratable(env, row) {
        assert Remaining(env, legacy, first) == rest;
        var latest := Latest(env.snapshot(row.group, row.blob).entries);
        if row.group in e' {
          var other := ExportedHasRow(env, rest, second, row.group);
          RemainingSubset(env, legacy[1..], first, other);
          assert false;
        }
        UpdateFirst(e, e', row.group, latest);
      } else {
        assert Remaining(env, legacy, first) == [row] + rest && ([row] + rest)[1..] == rest;
        if row.group in second && Migratable(env, row) {
          var latest := Latest(env.snapshot(row.group, row.blob).entries);
          UpdateSecond(e, e', row.group, latest);
        }
      }
    }
  }

  lemma UpdateFirst<K, V>(first: map<K, V>, second: map<K, V>, k: K, v: V)
    requires k !in second
    ensures first[k := v] + second == (first + second)[k := v]
  {
  }

  lemma UpdateSecond<K, V>(first: map<K, V>, second: map<K, V>, k: K, v: V)
    ensures first + second[k := v] == (first + second)[k := v]
  {
  }

  lemma {:induction false} ExportedHasRow(env: Env, legacy: seq<Legacy>, picked: set<GroupId>, g: GroupId)
    returns (row: Legacy)
    requires g in Exported(env, legacy, picked)
    ensures row in legacy && row.group == g && g in picked && Migratable(env, row)
    ensures Exported(env, legacy, picked)[g] == Latest(env.snapshot(row.group, row.blob).entries)
  {
    row := legacy[0];
    if !(row.group == g && g in picked && Migratable(env, row)) {
      row := ExportedHasRow(env, legacy[1..], picked, g);
    }
  }

  lemma {:induction false} RemainingKeeps(env: Env, legacy: seq<Legacy>, picked: set<GroupId>, i: nat)
    requires i < |legacy| && (legacy[i].group !in picked || !Migratable(env, legacy[i]))
    ensures legacy[i] in Remaining(env, legacy, picked)
  {
    if i > 0 {
      RemainingKeeps(env, legacy[1..], picked, i - 1);
    }
  }

  lemma {:induction false} RemainingSubset(env: Env, legacy: seq<Legacy>, picked: set<GroupId>, row: Legacy)
    requires row in Remaining(env, legacy, picked)
    ensures row in legacy && !(row.group in picked && Migratable(env, row))
  {
    if legacy[0] != row || row.group in picked {
      if row in Remaining(env, legacy[1..], picked) {
        RemainingSubset(env, legacy[1..], picked, row);
      }
    }
  }

  lemma {:induction false} RemainingValid(env: Env, legacy: seq<Legacy>, picked: set<GroupId>)
    requires forall i, j :: 0 <= i < j < |legacy| ==> legacy[i].group != legacy[j].group
    ensures var r := Remaining(env, legacy, picked);
            forall i, j :: 0 <= i < j < |r| ==> r[i].group != r[j].group
  {
    if legacy != [] {
      var rest := Remaining(env, legacy[1..], picked);
      RemainingValid(env, legacy[1..], picked);
      forall j | 0 <= j < |rest|
        ensures rest[j].group != legacy[0].group
      {
        RemainingSubset(env, legacy[1..], picked, rest[j]);
      }
    }
  }

  lemma MigrateValid(env: Env, db: Db, picked: set<GroupId>)
    requires db.Valid()
    ensures Migrate(env, db, picked).Valid()
  {
    RemainingValid(env, db.legacy, picked);
    assert Migrate(env, db, picked).legacy == Remaining(env, db.legacy, picked);
  }

  /** Migrating one group removes its row and sets its epoch rows. */
  lemma SingleGroup(env: Env, db: Db, i: nat)
    requires db.Valid() && i < |db.legacy|
    ensures var row := db.legacy[i];
            Migrate(env, db, {row.group}) ==
              if !Migratable(env, row) then db
              else Db(db.legacy[..i] + db.legacy[i + 1..],
                      db.epochs[row.group := Latest(env.snapshot(row.group, row.blob).entries)], db.done)
  {
    SingleRow(env, db.legacy, i);
    var row := db.legacy[i];
    if Migratable(env, row) {
      var latest := Latest(env.snapshot(row.group, row.blob).entries);
      assert db.epochs + map[row.group := latest] == db.epochs[row.group := latest];
    } else {
      assert db.epochs + map[] == db.epochs;
    }
  }

  lemma WithoutRow(legacy: seq<Legacy>, i: nat)
    requires 0 < i < |legacy|
    ensures [legacy[0]] + legacy[1..] == legacy
    ensures [legacy[0]] + (legacy[1..][..i - 1] + legacy[1..][i..]) == legacy[..i] + legacy[i + 1..]
  {
  }

  lemma {:induction false} SingleRow(env: Env, legacy: seq<Legacy>, i: nat)
    requires i < |legacy| && forall i, j :: 0 <= i < j < |legacy| ==> legacy[i].group != legacy[j].group
    ensures var row := legacy[i];
            if Migratable(env, row)
            then && Remaining(env, legacy, {row.group}) == legacy[..i] + legacy[i + 1..]
                 && Exported(env, legacy, {row.group}) ==
                      map[row.group := Latest(env.snapshot(row.group, row.blob).entries)]
            else Remaining(env, legacy, {row.group}) == legacy && Exported(env, legacy, {row.group}) == map[]
  {
    var rest := legacy[1..];
    if i == 0 {
      Untouched(env, rest, {legacy[0].group});
      assert legacy[..0] + legacy[1..] == rest;
    } else {
      assert rest[i - 1] == legacy[i] && legacy[0].group != legacy[i].group;
      SingleRow(env, rest, i - 1);
      WithoutRow(legacy, i);
    }
  }

  lemma {:induction false} Untouched(env: Env, rows: seq<Legacy>, picked: set<GroupId>)
    requires forall i :: 0 <= i < |rows| ==> rows[i].group !in picked || !Migratable(env, rows[i])
    ensures Remaining(env, rows, picked) == rows && Exported(env, rows, picked) == map[]
    decreases |rows|
  {
    if rows != [] {
      Untouched(env, rows[1..], picked);
    }
  }
}
