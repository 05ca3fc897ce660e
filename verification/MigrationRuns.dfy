/** Runs of migration starts: safety at every point, progress, and exactly when progress can stop. */
module MigrationRuns {
  import opened Common
  import opened Migration

  // ---------------------------------------------------------------- safety

  /** One start: which group transactions committed, and whether it got to look at the flag. */
  datatype Start = Start(picked: set<GroupId>, looked: bool)

  function Run(env: Env, db: Db, starts: seq<Start>): Db {
    if starts == [] then db else
    var last := starts[|starts| - 1];
    AfterStart(env, Run(env, db, starts[..|starts| - 1]), last.picked, last.looked)
  }

  function EpochsOf(db: Db, g: GroupId): Option<map<nat, Bytes>> {
    if g in db.epochs then Some(db.epochs[g]) else None
  }

  /** A legacy row is intact with its group's epoch rows unchanged, or gone with exactly its snapshot in their place. */
  ghost predicate RowFaithful(env: Env, start: Db, now: Db, row: Legacy) {
    if row in now.legacy then EpochsOf(now, row.group) == EpochsOf(start, row.group)
    else Migratable(env, row) && EpochsOf(now, row.group) == Some(Latest(env.snapshot(row.group, row.blob).entries))
  }

  ghost predicate HasLegacy(db: Db, g: GroupId) {
    exists row :: row in db.legacy && row.group == g
  }

  /** Compared with the beginning: every legacy row is faithful, groups without one are untouched, no row appeared,
      and the done flag is set only when no row is left. */
  ghost predicate Faithful(env: Env, start: Db, now: Db) {
    && now.Valid()
    && (forall row :: row in now.legacy ==> row in start.legacy)
    && (forall row :: row in start.legacy ==> RowFaithful(env, start, now, row))
    && (forall g :: !HasLegacy(start, g) ==> EpochsOf(now, g) == EpochsOf(start, g))
    && (now.done ==> now.legacy == [])
  }

  /** What migrating some groups does to one group. */
  lemma MigrateOneGroup(env: Env, db: Db, picked: set<GroupId>, row: Legacy)
    requires db.Valid() && row in db.legacy
    ensures var d := Migrate(env, db, picked);
            if row.group in picked && Migratable(env, row)
            then row !in d.legacy && EpochsOf(d, row.group) == Some(Latest(env.snapshot(row.group, row.blob).entries))
            else row in d.legacy && EpochsOf(d, row.group) == EpochsOf(db, row.group)
  {
    var d := Migrate(env, db, picked);
    var i :| 0 <= i < |db.legacy| && db.legacy[i] == row;
    if row.group in Exported(env, db.legacy, picked) {
      var other := ExportedHasRow(env, db.legacy, picked, row.group);
      var j :| 0 <= j < |db.legacy| && db.legacy[j] == other;
      assert other == row;
    }
    if row.group in picked && Migratable(env, row) {
      if row in d.legacy {
        RemainingSubset(env, db.legacy, picked, row);
      }
      ExportedContains(env, db.legacy, picked, i);
    } else {
      RemainingKeeps(env, db.legacy, picked, i);
    }
  }

  lemma {:induction false} ExportedContains(env: Env, legacy: seq<Legacy>, picked: set<GroupId>, i: nat)
    requires i < |legacy| && legacy[i].group in picked && Migratable(env, legacy[i])
    ensures legacy[i].group in Exported(env, legacy, picked)
  {
    if i > 0 {
      ExportedContains(env, legacy[1..], picked, i - 1);
    }
  }

  lemma MigrateLeavesOthers(env: Env, db: Db, picked: set<GroupId>, g: GroupId)
    requires !HasLegacy(db, g)
    ensures EpochsOf(Migrate(env, db, picked), g) == EpochsOf(db, g)
  {
    if g in Exported(env, db.legacy, picked) {
      var row := ExportedHasRow(env, db.legacy, picked, g);
      assert false;
    }
  }

  lemma MigrateKeepsFaithful(env: Env, start: Db, now: Db, picked: set<GroupId>)
    requires start.Valid() && Faithful(env, start, now) && !now.done
    ensures Faithful(env, start, Migrate(env, now, picked))
  {
    var d := Migrate(env, now, picked);
    MigrateValid(env, now, picked);
    forall row | row in d.legacy
      ensures row in start.legacy
    {
      RemainingSubset(env, now.legacy, picked, row);
    }
    forall row | row in start.legacy
      ensures RowFaithful(env, start, d, row)
    {
      RowStaysFaithful(env, start, now, picked, row);
    }
    forall g | !HasLegacy(start, g)
      ensures EpochsOf(d, g) == EpochsOf(start, g)
    {
      MigrateLeavesOthers(env, now, picked, g);
    }
  }

  lemma RowStaysFaithful(env: Env, start: Db, now: Db, picked: set<GroupId>, row: Legacy)
    requires start.Valid() && Faithful(env, start, now) && row in start.legacy
    ensures RowFaithful(env, start, Migrate(env, now, picked), row)
  {
    assert RowFaithful(env, start, now, row);
    if row in now.legacy {
      MigrateOneGroup(env, now, picked, row);
    } else {
      assert !HasLegacy(now, row.group) by {
        forall other | other in now.legacy
          ensures other.group != row.group
        {
          var i :| 0 <= i < |start.legacy| && start.legacy[i] == row;
          var j :| 0 <= j < |start.legacy| && start.legacy[j] == other;
        }
      }
      MigrateLeavesOthers(env, now, picked, row.group);
      if row in Migrate(env, now, picked).legacy {
        RemainingSubset(env, now.legacy, picked, row);
      }
    }
  }

  lemma StartKeepsFaithful(env: Env, start: Db, now: Db, s: Start)
    requires start.Valid() && Faithful(env, start, now)
    ensures Faithful(env, start, AfterStart(env, now, s.picked, s.looked))
  {
    if !now.done && Listable(now) {
      var d := Migrate(env, now, s.picked * Groups(Batch(now)));
      MigrateKeepsFaithful(env, start, now, s.picked * Groups(Batch(now)));
      FlagOnly(env, start, d, AfterStart(env, now, s.picked, s.looked));
    }
  }

  lemma FlagOnly(env: Env, start: Db, d: Db, e: Db)
    requires Faithful(env, start, d) && e.legacy == d.legacy && e.epochs == d.epochs && (e.done ==> e.legacy == [])
    ensures Faithful(env, start, e)
  {
    forall row | row in start.legacy
      ensures RowFaithful(env, start, e, row)
    {
      assert RowFaithful(env, start, d, row);
    }
    forall g | !HasLegacy(start, g)
      ensures EpochsOf(e, g) == EpochsOf(start, g)
    {
      assert EpochsOf(d, g) == EpochsOf(start, g);
    }
  }

  /** Safety: however the starts are interrupted, at every point each group is either untouched or completely
      migrated, other groups never change, and the done flag means no legacy row is left. */
  lemma {:induction false} EveryRunIsFaithful(env: Env, db: Db, starts: seq<Start>)
    requires db.Valid() && !db.done
    ensures Faithful(env, db, Run(env, db, starts))
  {
    if starts != [] {
      var init := starts[..|starts| - 1];
      EveryRunIsFaithful(env, db, init);
      StartKeepsFaithful(env, db, Run(env, db, init), starts[|starts| - 1]);
    }
  }

  // ---------------------------------------------------------------- progress

  function Migratables(env: Env, rows: seq<Legacy>): nat {
    if rows == [] then 0 else (if Migratable(env, rows[0]) then 1 else 0) + Migratables(env, rows[1..])
  }

  /** Rows whose snapshot is an error or absent: no start ever removes them. */
  function Stuck(env: Env, rows: seq<Legacy>): nat {
    if rows == [] then 0 else (if Migratable(env, rows[0]) then 0 else 1) + Stuck(env, rows[1..])
  }

  predicate AllReadable(rows: seq<Legacy>) {
    forall i :: 0 <= i < |rows| ==> rows[i].readable
  }

  /** `n` uninterrupted starts. */
  function CleanStarts(env: Env, db: Db, n: nat): Db {
    if n == 0 then db else CleanStart(env, CleanStarts(env, db, n - 1))
  }

  lemma {:induction false} CountsSplit(env: Env, a: seq<Legacy>, b: seq<Legacy>)
    ensures Migratables(env, a + b) == Migratables(env, a) + Migratables(env, b)
    ensures Stuck(env, a + b) == Stuck(env, a) + Stuck(env, b)
    ensures Migratables(env, a) + Stuck(env, a) == |a|
    decreases |a|
  {
    if a == [] {
      assert a + b == b;
    } else {
      assert (a + b)[1..] == a[1..] + b;
      CountsSplit(env, a[1..], b);
    }
  }

  /** The rows that stay. */
  function Kept(env: Env, rows: seq<Legacy>): seq<Legacy> {
    if rows == [] then [] else (if Migratable(env, rows[0]) then [] else [rows[0]]) + Kept(env, rows[1..])
  }

  lemma {:induction false} KeptCounts(env: Env, rows: seq<Legacy>)
    ensures Migratables(env, Kept(env, rows)) == 0
    ensures Stuck(env, Kept(env, rows)) == Stuck(env, rows) == |Kept(env, rows)|
  {
    if rows != [] {
      KeptCounts(env, rows[1..]);
      var rest := Kept(env, rows[1..]);
      assert ([rows[0]] + rest)[1..] == rest && [] + rest == rest;
    }
  }

  lemma {:induction false} RemainingOfPicked(env: Env, rows: seq<Legacy>, picked: set<GroupId>)
    requires forall i :: 0 <= i < |rows| ==> rows[i].group in picked
    ensures Remaining(env, rows, picked) == Kept(env, rows)
  {
    if rows != [] {
      RemainingOfPicked(env, rows[1..], picked);
    }
  }

  /** An uninterrupted start leaves the stuck rows of its batch and everything older. */
  lemma CleanStartRows(env: Env, db: Db)
    requires db.Valid() && !db.done && Listable(db)
    ensures var b := Batch(db);
            && CleanStart(env, db).legacy == Kept(env, b) + db.legacy[|b|..]
            && CleanStart(env, db).Valid()
            && (CleanStart(env, db).done <==> CleanStart(env, db).legacy == [])
  {
    var b, older := Batch(db), db.legacy[|Batch(db)|..];
    var picked := Groups(b);
    assert picked * picked == picked;
    assert b + older == db.legacy;
    RemainingSplits(env, b, older, picked);
    forall i | 0 <= i < |older|
      ensures older[i].group !in picked
    {
      assert forall j :: 0 <= j < |b| ==> b[j].group == db.legacy[j].group != db.legacy[|b| + i].group;
    }
    Untouched(env, older, picked);
    RemainingOfPicked(env, b, picked);
    RemainingValid(env, db.legacy, picked);
  }

  lemma {:induction false} RemainingSplits(env: Env, a: seq<Legacy>, b: seq<Legacy>, picked: set<GroupId>)
    ensures Remaining(env, a + b, picked) == Remaining(env, a, picked) + Remaining(env, b, picked)
    decreases |a|
  {
    if a == [] {
      assert a + b == b;
    } else {
      assert (a + b)[1..] == a[1..] + b;
      RemainingSplits(env, a[1..], b, picked);
    }
  }

  /** With k stuck rows in all, one start that can list its batch migrates at least 20 - k groups, or all that
      are left; one that cannot changes nothing. */
  lemma OneStartProgress(env: Env, db: Db)
    requires db.Valid() && !db.done
    ensures var d := CleanStart(env, db);
            && Stuck(env, d.legacy) == Stuck(env, db.legacy)
            && (if Listable(db)
                then Migratables(env, d.legacy) == 0 ||
                     Migratables(env, d.legacy) + BATCH <= Migratables(env, db.legacy) + Stuck(env, db.legacy)
                else d == db)
  {
    if Listable(db) {
      var b, older := Batch(db), db.legacy[|Batch(db)|..];
      CleanStartRows(env, db);
      assert b + older == db.legacy;
      CountsSplit(env, b, older);
      KeptCounts(env, b);
      CountsSplit(env, Kept(env, b), older);
    }
  }

  /** However a start is interrupted, no stuck row goes and no migratable row comes back. */
  lemma {:induction false} MigratingCounts(env: Env, rows: seq<Legacy>, picked: set<GroupId>)
    ensures Stuck(env, Remaining(env, rows, picked)) == Stuck(env, rows)
    ensures Migratables(env, Remaining(env, rows, picked)) <= Migratables(env, rows)
  {
    if rows != [] {
      MigratingCounts(env, rows[1..], picked);
      var rest := Remaining(env, rows[1..], picked);
      assert ([rows[0]] + rest)[1..] == rest && [] + rest == rest;
    }
  }

  /** A start that gets through its whole batch and looks at the flag. */
  predicate Clean(db: Db, s: Start) {
    Groups(Batch(db)) <= s.picked && s.looked
  }

  /** How many starts of a run were not interrupted. */
  function CleanOnes(env: Env, db: Db, starts: seq<Start>): nat {
    if starts == [] then 0 else
    var init := starts[..|starts| - 1];
    CleanOnes(env, db, init) + if Clean(Run(env, db, init), starts[|starts| - 1]) then 1 else 0
  }

  /** Progress: with k < 20 stuck rows, m migratable groups are all migrated after any run with n uninterrupted
      starts, n * (20 - k) >= m, whatever the row order and whatever the other starts got done; only an
      undecodable id among the newest twenty rows can be in the way. Without stuck rows the flag is then set. */
  lemma AllMigratedInTime(env: Env, db: Db, starts: seq<Start>)
    requires db.Valid() && (db.done ==> db.legacy == []) && EnoughStarts(env, db.legacy, CleanOnes(env, db, starts))
    ensures var d := Run(env, db, starts);
            && (Listable(d) ==> Migratables(env, d.legacy) == 0)
            && (Listable(d) && Stuck(env, db.legacy) == 0 && CleanOnes(env, db, starts) > 0 ==>
                  d.done && d.legacy == [])
            && (AllReadable(db.legacy) ==> Listable(d))
  {
    ProgressAfter(env, db, starts);
    if AllReadable(db.legacy) {
      StaysListable(env, db, starts);
    }
  }

  lemma StaysListable(env: Env, db: Db, starts: seq<Start>)
    requires AllReadable(db.legacy)
    ensures Listable(Run(env, db, starts))
  {
    var d := Run(env, db, starts);
    RunShrinks(env, db, starts);
    forall i | 0 <= i < |Batch(d)|
      ensures Batch(d)[i].readable
    {
      assert d.legacy[i] in db.legacy;
    }
  }

  /** What a run of starts, interrupted or not, has achieved as long as the rows can be listed. */
  lemma {:induction false} ProgressAfter(env: Env, db: Db, starts: seq<Start>)
    requires db.Valid() && (db.done ==> db.legacy == []) && Stuck(env, db.legacy) < BATCH
    ensures var d, n := Run(env, db, starts), CleanOnes(env, db, starts);
            var k, m := Stuck(env, db.legacy), Migratables(env, db.legacy);
            && d.Valid() && (d.done ==> d.legacy == []) && Stuck(env, d.legacy) == k
            && (Listable(d) ==> Migratables(env, d.legacy) == 0 || Migratables(env, d.legacy) + n * (BATCH - k) <= m)
            && (Listable(d) && k == 0 && n > 0 ==> d.done || n * (BATCH - k) < m)
  {
    if starts != [] {
      var init := starts[..|starts| - 1];
      ProgressAfter(env, db, init);
      StartProgress(env, db, Run(env, db, init), starts[|starts| - 1], CleanOnes(env, db, init));
    }
  }

  lemma StartProgress(env: Env, db: Db, d: Db, s: Start, n: nat)
    requires d.Valid() && (d.done ==> d.legacy == []) && Stuck(env, d.legacy) == Stuck(env, db.legacy) < BATCH
    requires Listable(d) ==>
               || Migratables(env, d.legacy) == 0
               || Migratables(env, d.legacy) + n * (BATCH - Stuck(env, db.legacy)) <= Migratables(env, db.legacy)
    requires Listable(d) && Stuck(env, db.legacy) == 0 && n > 0 ==>
               d.done || n * (BATCH - Stuck(env, db.legacy)) < Migratables(env, db.legacy)
    ensures var e, k, m := AfterStart(env, d, s.picked, s.looked), Stuck(env, db.legacy), Migratables(env, db.legacy);
            var n' := n + if Clean(d, s) then 1 else 0;
            && e.Valid() && (e.done ==> e.legacy == []) && Stuck(env, e.legacy) == k
            && (Listable(e) ==> Migratables(env, e.legacy) == 0 || Migratables(env, e.legacy) + n' * (BATCH - k) <= m)
            && (Listable(e) && k == 0 && n' > 0 ==> e.done || n' * (BATCH - k) < m)
  {
    if !d.done && Listable(d) {
      var picked, k := s.picked * Groups(Batch(d)), Stuck(env, db.legacy);
      MigratingCounts(env, d.legacy, picked);
      RemainingValid(env, d.legacy, picked);
      if Clean(d, s) {
        assert picked == Groups(Batch(d)) == Groups(Batch(d)) * Groups(Batch(d));
        assert AfterStart(env, d, s.picked, s.looked) == CleanStart(env, d);
        OneStartProgress(env, d);
        CleanStartRows(env, d);
        CountsSplit(env, CleanStart(env, d).legacy, []);
        assert (n + 1) * (BATCH - k) == n * (BATCH - k) + (BATCH - k);
      }
    }
  }

  /** Starts only ever take rows away. */
  lemma {:induction false} RunShrinks(env: Env, db: Db, starts: seq<Start>)
    ensures forall row :: row in Run(env, db, starts).legacy ==> row in db.legacy
  {
    if starts != [] {
      var init, s := starts[..|starts| - 1], starts[|starts| - 1];
      RunShrinks(env, db, init);
      var d := Run(env, db, init);
      if !d.done && Listable(d) {
        forall row | row in Run(env, db, starts).legacy
          ensures row in db.legacy
        {
          RemainingSubset(env, d.legacy, s.picked * Groups(Batch(d)), row);
        }
      }
    }
  }

  // ---------------------------------------------------------------- exactly when everything gets migrated

  lemma StuckBetween(env: Env, rows: seq<Legacy>, p: nat, q: nat)
    requires p <= q <= |rows|
    ensures Stuck(env, rows[..p]) <= Stuck(env, rows[..q]) <= Stuck(env, rows[..p]) + (q - p)
    ensures Migratables(env, rows[..q]) == q - Stuck(env, rows[..q])
    ensures Migratables(env, rows[p..]) == Migratables(env, rows) - Migratables(env, rows[..p])
  {
    assert rows[..q] == rows[..p] + rows[p..q] && rows == rows[..p] + rows[p..];
    CountsSplit(env, rows[..p], rows[p..q]);
    CountsSplit(env, rows[p..q], []);
    CountsSplit(env, rows[..q], []);
    CountsSplit(env, rows[..p], rows[p..]);
  }

  /** How many rows, newest first, `t` starts have listed: each lists the stuck ones seen so far again and fills
      its batch up with older rows. */
  function Listed(env: Env, rows: seq<Legacy>, t: nat): (p: nat)
    ensures p <= |rows| && Stuck(env, rows[..p]) <= BATCH
  {
    if t == 0 then 0 else
    var p := Listed(env, rows, t - 1);
    var q := Min(|rows|, p + (BATCH - Stuck(env, rows[..p])));
    StuckBetween(env, rows, p, q);
    q
  }

  /** The rows can be migrated for good: some number of starts lists every migratable row and no undecodable id. */
  predicate Clears(env: Env, rows: seq<Legacy>) {
    exists t :: 0 <= t <= |rows| && ClearsBy(env, rows, t)
  }

  predicate ClearsBy(env: Env, rows: seq<Legacy>, t: nat) {
    var p := Listed(env, rows, t);
    AllReadable(rows[..p]) && Migratables(env, rows[p..]) == 0
  }

  /** Every migratable row has fewer than twenty stuck rows newer than itself. */
  ghost predicate NoneStarved(env: Env, rows: seq<Legacy>) {
    forall i :: 0 <= i < |rows| && Migratable(env, rows[i]) ==> Stuck(env, rows[..i]) < BATCH
  }

  lemma {:induction false} KeptSplits(env: Env, a: seq<Legacy>, b: seq<Legacy>)
    ensures Kept(env, a + b) == Kept(env, a) + Kept(env, b)
    decreases |a|
  {
    if a == [] {
      assert a + b == b;
    } else {
      assert (a + b)[1..] == a[1..] + b;
      KeptSplits(env, a[1..], b);
    }
  }

  lemma {:induction false} KeptAgain(env: Env, rows: seq<Legacy>)
    ensures Kept(env, Kept(env, rows)) == Kept(env, rows)
    ensures forall row :: row in Kept(env, rows) ==> row in rows
  {
    if rows != [] {
      KeptAgain(env, rows[1..]);
      var rest := Kept(env, rows[1..]);
      assert ([rows[0]] + rest)[1..] == rest && [] + rest == rest;
    }
  }

  /** The database after starts that listed the first `p` rows. */
  ghost predicate At(env: Env, rows: seq<Legacy>, p: nat, db: Db) {
    && p <= |rows| && AllReadable(rows[..p]) && Stuck(env, rows[..p]) <= BATCH
    && db.legacy == Kept(env, rows[..p]) + rows[p..]
    && db.Valid() && (db.done ==> db.legacy == [])
  }

  /** The next start lists up to `q`, and gets there exactly if it can decode all ids. */
  lemma ListNext(env: Env, rows: seq<Legacy>, p: nat, q: nat, db: Db)
    requires At(env, rows, p, db) && q == Min(|rows|, p + (BATCH - Stuck(env, rows[..p])))
    ensures if AllReadable(rows[..q]) then At(env, rows, q, CleanStart(env, db)) else CleanStart(env, db) == db
  {
    StuckBetween(env, rows, p, q);
    if db.done {
      KeptCounts(env, rows[..p]);
      assert rows[..q] == rows[..p];
    } else {
      BatchAt(env, rows, p, q, db);
      ListedReadable(env, rows, p, q);
      if AllReadable(rows[..q]) {
        CleanStartRows(env, db);
        KeptOnceMore(env, rows, p, q);
      }
    }
  }

  /** The batch is the stuck rows seen so far, and older rows up to `q`. */
  lemma BatchAt(env: Env, rows: seq<Legacy>, p: nat, q: nat, db: Db)
    requires At(env, rows, p, db) && q == Min(|rows|, p + (BATCH - Stuck(env, rows[..p])))
    ensures Batch(db) == Kept(env, rows[..p]) + rows[p..q] && db.legacy[|Batch(db)|..] == rows[q..]
  {
    KeptCounts(env, rows[..p]);
  }

  lemma KeptOnceMore(env: Env, rows: seq<Legacy>, p: nat, q: nat)
    requires p <= q <= |rows|
    ensures Kept(env, Kept(env, rows[..p]) + rows[p..q]) == Kept(env, rows[..q])
  {
    KeptAgain(env, rows[..p]);
    KeptSplits(env, Kept(env, rows[..p]), rows[p..q]);
    KeptSplits(env, rows[..p], rows[p..q]);
    assert rows[..q] == rows[..p] + rows[p..q];
  }

  lemma ListedReadable(env: Env, rows: seq<Legacy>, p: nat, q: nat)
    requires p <= q <= |rows| && AllReadable(rows[..p])
    ensures AllReadable(Kept(env, rows[..p]) + rows[p..q]) <==> AllReadable(rows[..q])
  {
    var kept := Kept(env, rows[..p]);
    var b := kept + rows[p..q];
    KeptAgain(env, rows[..p]);
    forall i | 0 <= i < |kept|
      ensures kept[i].readable
    {
      assert kept[i] in rows[..p];
    }
    if AllReadable(b) {
      forall i | p <= i < q
        ensures rows[i].readable
      {
        assert b[|kept| + (i - p)] == rows[i];
      }
      assert forall i :: 0 <= i < p ==> rows[..p][i] == rows[i];
    }
    if AllReadable(rows[..q]) {
      assert forall i :: p <= i < q ==> rows[..q][i] == rows[i];
    }
  }

  /** After `n` clean starts, the first `t` of which could list their batch and no other could. */
  ghost predicate AtStartOf(env: Env, rows: seq<Legacy>, n: nat, t: nat, db: Db) {
    && t <= n && At(env, rows, Listed(env, rows, t), db)
    && (t < n ==> !AllReadable(rows[..Listed(env, rows, t + 1)]))
  }

  lemma ListOnce(env: Env, rows: seq<Legacy>, n: nat, t: nat, d: Db, e: Db) returns (u: nat)
    requires AtStartOf(env, rows, n, t, d) && e == CleanStart(env, d)
    ensures AtStartOf(env, rows, n + 1, u, e)
  {
    var q := Listed(env, rows, t + 1);
    ListNext(env, rows, Listed(env, rows, t), q, d);
    u := if AllReadable(rows[..q]) then t + 1 else t;
  }

  lemma AtStart(env: Env, db: Db)
    requires db.Valid() && !db.done
    ensures At(env, db.legacy, 0, db)
  {
    assert db.legacy[..0] == [] && [] + db.legacy[0..] == db.legacy;
  }

  /** After `n` clean starts the database is where the last start that could list its batch left it. */
  lemma {:induction false} CleanStartsAt(env: Env, db: Db, n: nat, e: Db) returns (t: nat)
    requires db.Valid() && !db.done && e == CleanStarts(env, db, n)
    ensures AtStartOf(env, db.legacy, n, t, e)
  {
    if n == 0 {
      t := 0;
      AtStart(env, db);
    } else {
      var d := CleanStarts(env, db, n - 1);
      t := CleanStartsAt(env, db, n - 1, d);
      t := ListOnce(env, db.legacy, n - 1, t, d, e);
    }
  }

  lemma {:induction false} ListedGrows(env: Env, rows: seq<Legacy>, t: nat, u: nat)
    requires t <= u
    ensures Listed(env, rows, t) <= Listed(env, rows, u)
    decreases u
  {
    if t < u {
      ListedGrows(env, rows, t, u - 1);
    }
  }

  /** Nothing new is listed any more: all rows have been, or stuck rows fill the batch. */
  predicate Exhausted(env: Env, rows: seq<Legacy>, p: nat)
    requires p <= |rows|
  {
    p == |rows| || Stuck(env, rows[..p]) == BATCH
  }

  /** Until then every start lists something new, so |rows| starts list all that will ever be. */
  lemma {:induction false} ListedSettles(env: Env, rows: seq<Legacy>, t: nat)
    ensures Listed(env, rows, t) >= t || Exhausted(env, rows, Listed(env, rows, t))
    ensures t >= |rows| ==>
              Listed(env, rows, t) == Listed(env, rows, |rows|) && Exhausted(env, rows, Listed(env, rows, t))
  {
    if t > 0 {
      ListedSettles(env, rows, t - 1);
    }
  }

  /** What is left to migrate at such a point. */
  lemma LeftAt(env: Env, rows: seq<Legacy>, p: nat, db: Db)
    requires At(env, rows, p, db)
    ensures Migratables(env, db.legacy) == Migratables(env, rows[p..])
  {
    CountsSplit(env, Kept(env, rows[..p]), rows[p..]);
    KeptCounts(env, rows[..p]);
  }

  /** With k < 20 stuck and m migratable rows: n * (20 - k) >= m. */
  predicate EnoughStarts(env: Env, rows: seq<Legacy>, n: nat) {
    Stuck(env, rows) < BATCH && Migratables(env, rows) <= n * (BATCH - Stuck(env, rows))
  }

  /** Repeated uninterrupted starts migrate every migratable group if and only if the rows clear; then as many
      starts as there are rows are enough, otherwise no number is. With k < 20 stuck rows, any n with
      n * (20 - k) >= m is enough. */
  lemma MigrationFinishesIffRowsClear(env: Env, db: Db)
    requires db.Valid() && !db.done
    ensures (exists n: nat :: Migratables(env, CleanStarts(env, db, n).legacy) == 0) <==> Clears(env, db.legacy)
    ensures Clears(env, db.legacy) ==> Migratables(env, CleanStarts(env, db, |db.legacy|).legacy) == 0
    ensures forall n: nat :: EnoughStarts(env, db.legacy, n) ==>
              (Migratables(env, CleanStarts(env, db, n).legacy) == 0 <==> Clears(env, db.legacy))
  {
    forall n: nat | Migratables(env, CleanStarts(env, db, n).legacy) == 0
      ensures Clears(env, db.legacy)
    {
      FinishedClears(env, db, n);
    }
    if Clears(env, db.legacy) {
      var t :| 0 <= t <= |db.legacy| && ClearsBy(env, db.legacy, t);
      ClearedFinishes(env, db, t, |db.legacy|);
      forall n: nat | EnoughStarts(env, db.legacy, n)
        ensures Migratables(env, CleanStarts(env, db, n).legacy) == 0
      {
        ListedInTime(env, db.legacy, n);
        ClearedFinishes(env, db, t, n);
      }
    }
  }

  lemma FinishedClears(env: Env, db: Db, n: nat)
    requires db.Valid() && !db.done && Migratables(env, CleanStarts(env, db, n).legacy) == 0
    ensures Clears(env, db.legacy)
  {
    var rows := db.legacy;
    var t := CleanStartsAt(env, db, n, CleanStarts(env, db, n));
    LeftAt(env, rows, Listed(env, rows, t), CleanStarts(env, db, n));
    ListedSettles(env, rows, t);
    assert ClearsBy(env, rows, if t <= |rows| then t else |rows|);
  }

  /** If `t` starts clear the rows, then so do `n` that list every migratable row. */
  lemma ClearedFinishes(env: Env, db: Db, t: nat, n: nat)
    requires db.Valid() && !db.done && ClearsBy(env, db.legacy, t)
    requires t <= n || Migratables(env, db.legacy[Listed(env, db.legacy, n)..]) == 0
    ensures Migratables(env, CleanStarts(env, db, n).legacy) == 0
  {
    var s := CleanStartsAt(env, db, n, CleanStarts(env, db, n));
    LeftAt(env, db.legacy, Listed(env, db.legacy, s), CleanStarts(env, db, n));
    NothingLeft(env, db.legacy, t, s, n);
  }

  lemma NothingLeft(env: Env, rows: seq<Legacy>, t: nat, s: nat, n: nat)
    requires ClearsBy(env, rows, t) && s <= n && (s < n ==> !AllReadable(rows[..Listed(env, rows, s + 1)]))
    requires t <= n || Migratables(env, rows[Listed(env, rows, n)..]) == 0
    ensures Migratables(env, rows[Listed(env, rows, s)..]) == 0
  {
    var p := Listed(env, rows, t);
    if s >= t {
      ListedGrows(env, rows, t, s);
      LaterPoint(env, rows, p, Listed(env, rows, s));
    } else if s < n {
      ListedGrows(env, rows, s + 1, t);
      LaterPoint(env, rows, Listed(env, rows, s + 1), p);
    }
  }

  lemma LaterPoint(env: Env, rows: seq<Legacy>, p: nat, q: nat)
    requires p <= q <= |rows|
    ensures AllReadable(rows[..q]) ==> AllReadable(rows[..p])
    ensures Migratables(env, rows[q..]) <= Migratables(env, rows[p..])
  {
    assert forall i :: 0 <= i < p ==> rows[..p][i] == rows[..q][i];
    assert rows[p..] == rows[p..q] + rows[q..];
    CountsSplit(env, rows[p..q], rows[q..]);
  }

  /** Each start lists at least 20 - k migratable rows for the first time, or the last ones. */
  lemma ListsMore(env: Env, rows: seq<Legacy>, o: nat, p: nat)
    requires Stuck(env, rows) < BATCH && o <= |rows| && Stuck(env, rows[..o]) <= BATCH
    requires p == Min(|rows|, o + (BATCH - Stuck(env, rows[..o])))
    ensures p == |rows| || Migratables(env, rows[..p]) >= Migratables(env, rows[..o]) + (BATCH - Stuck(env, rows))
  {
    StuckBetween(env, rows, o, p);
    StuckBetween(env, rows, o, o);
    StuckBetween(env, rows, p, |rows|);
    assert rows[..|rows|] == rows;
  }

  lemma {:induction false} ListedByNow(env: Env, rows: seq<Legacy>, n: nat, pace: nat)
    requires Stuck(env, rows) < BATCH && pace == BATCH - Stuck(env, rows)
    ensures var p := Listed(env, rows, n);
            p == |rows| || Migratables(env, rows[..p]) >= n * pace
  {
    if n > 0 {
      ListedByNow(env, rows, n - 1, pace);
      ListsMore(env, rows, Listed(env, rows, n - 1), Listed(env, rows, n));
      assert n * pace == (n - 1) * pace + pace;
    }
  }

  lemma ListedInTime(env: Env, rows: seq<Legacy>, n: nat)
    requires EnoughStarts(env, rows, n)
    ensures Migratables(env, rows[Listed(env, rows, n)..]) == 0
  {
    ListedByNow(env, rows, n, BATCH - Stuck(env, rows));
    var p := Listed(env, rows, n);
    StuckBetween(env, rows, p, |rows|);
    if p == |rows| {
      assert rows[p..] == [];
    }
  }

  /** Rows that clear starve nobody; and where every id can be decoded, that is all it takes. */
  lemma ClearsIffNoneStarved(env: Env, rows: seq<Legacy>)
    ensures Clears(env, rows) ==> NoneStarved(env, rows)
    ensures AllReadable(rows) ==> (Clears(env, rows) <==> NoneStarved(env, rows))
  {
    if Clears(env, rows) {
      var t :| 0 <= t <= |rows| && ClearsBy(env, rows, t);
      var p := Listed(env, rows, t);
      forall i | 0 <= i < |rows| && Migratable(env, rows[i])
        ensures Stuck(env, rows[..i]) < BATCH
      {
        if i < p {
          ListedHasRoom(env, rows, t, i);
        } else {
          MigratableCounts(env, rows[p..], i - p);
          assert false;
        }
      }
    }
    if AllReadable(rows) && NoneStarved(env, rows) {
      var p := Listed(env, rows, |rows|);
      ListedSettles(env, rows, |rows|);
      if Migratables(env, rows[p..]) > 0 {
        var i := FirstMigratable(env, rows[p..]);
        StuckBetween(env, rows, p, p + i);
        assert false;
      }
      assert ClearsBy(env, rows, |rows|);
    }
  }

  lemma {:induction false} ListedHasRoom(env: Env, rows: seq<Legacy>, t: nat, i: nat)
    requires i < Listed(env, rows, t)
    ensures Stuck(env, rows[..i]) < BATCH
  {
    var p := Listed(env, rows, t - 1);
    if i < p {
      ListedHasRoom(env, rows, t - 1, i);
    } else {
      StuckBetween(env, rows, p, i);
    }
  }

  lemma {:induction false} FirstMigratable(env: Env, rows: seq<Legacy>) returns (i: nat)
    requires Migratables(env, rows) > 0
    ensures i < |rows| && Migratable(env, rows[i]) && Migratables(env, rows[..i]) == 0
  {
    if Migratable(env, rows[0]) {
      i := 0;
    } else {
      i := FirstMigratable(env, rows[1..]);
      i := i + 1;
      assert rows[..i][1..] == rows[1..][..i - 1];
    }
  }

  lemma {:induction false} MigratableCounts(env: Env, rows: seq<Legacy>, i: nat)
    requires i < |rows| && Migratable(env, rows[i])
    ensures Migratables(env, rows) > 0
  {
    if i > 0 {
      MigratableCounts(env, rows[1..], i - 1);
    }
  }

  /** One undecodable group id among the newest twenty rows stops every later start as well. */
  lemma {:induction false} UnreadableRowBlocksForever(env: Env, db: Db, starts: seq<Start>)
    requires !Listable(db)
    ensures Run(env, db, starts) == db
  {
    if starts != [] {
      UnreadableRowBlocksForever(env, db, starts[..|starts| - 1]);
    }
  }

  // ---------------------------------------------------------------- interrupted runs and starvation

  /** Where a remaining row was: the rows in front of it are what remains of those in front of it before. */
  lemma {:induction false} RemainingCameFrom(env: Env, rows: seq<Legacy>, picked: set<GroupId>, j: nat)
    returns (i: nat)
    requires j < |Remaining(env, rows, picked)|
    ensures i < |rows| && rows[i] == Remaining(env, rows, picked)[j]
    ensures Remaining(env, rows, picked)[..j] == Remaining(env, rows[..i], picked)
  {
    var last := rows[|rows| - 1];
    var init := rows[..|rows| - 1];
    var before, own := Remaining(env, init, picked), Remaining(env, [last], picked);
    RemainingSplits(env, init, [last], picked);
    assert rows == init + [last];
    if j < |before| {
      i := RemainingCameFrom(env, init, picked, j);
      assert init[..i] == rows[..i];
    } else {
      assert Remaining(env, [], picked) == [] && [last][1..] == [];
      i := |rows| - 1;
    }
  }

  /** No start, interrupted or not, makes a row starve. */
  lemma UnstarvedStays(env: Env, rows: seq<Legacy>, picked: set<GroupId>)
    requires NoneStarved(env, rows)
    ensures NoneStarved(env, Remaining(env, rows, picked))
  {
    var left := Remaining(env, rows, picked);
    forall j | 0 <= j < |left| && Migratable(env, left[j])
      ensures Stuck(env, left[..j]) < BATCH
    {
      var i := RemainingCameFrom(env, rows, picked, j);
      MigratingCounts(env, rows[..i], picked);
    }
  }

  /** Nor does any stop it from starving: twenty stuck rows keep it out of the batch. */
  lemma StarvedStays(env: Env, db: Db, picked: set<GroupId>)
    requires db.Valid() && !NoneStarved(env, db.legacy) && picked <= Groups(Batch(db))
    ensures !NoneStarved(env, Remaining(env, db.legacy, picked))
  {
    var rows := db.legacy;
    var i :| 0 <= i < |rows| && Migratable(env, rows[i]) && Stuck(env, rows[..i]) >= BATCH;
    var left, front := Remaining(env, rows, picked), Remaining(env, rows[..i], picked);
    StuckBetween(env, rows, 0, i);
    assert rows[..i] + rows[i..] == rows && rows[..0] == [];
    assert rows[i].group !in picked by {
      assert forall j :: 0 <= j < |Batch(db)| ==> Batch(db)[j].group == rows[j].group != rows[i].group;
    }
    RemainingSplits(env, rows[..i], rows[i..], picked);
    MigratingCounts(env, rows[..i], picked);
    assert left[|front|] == rows[i] && left[..|front|] == front;
  }

  /** A start that can list its batch, and finds a migratable row that does not starve, migrates at least one. */
  lemma UnstarvedProgress(env: Env, db: Db)
    requires db.Valid() && !db.done && Listable(db) && NoneStarved(env, db.legacy) && Migratables(env, db.legacy) > 0
    ensures Migratables(env, CleanStart(env, db).legacy) < Migratables(env, db.legacy)
  {
    var rows, b := db.legacy, Batch(db);
    var i := FirstMigratable(env, rows);
    CleanStartRows(env, db);
    assert rows == b + rows[|b|..];
    CountsSplit(env, b, rows[|b|..]);
    CountsSplit(env, Kept(env, b), rows[|b|..]);
    KeptCounts(env, b);
    StuckBetween(env, rows, i, i);
    assert b[i] == rows[i];
    MigratableCounts(env, b, i);
  }

  /** Whatever the number of stuck rows and however the other starts are interrupted: any run with as many uninterrupted
      starts as there are migratable rows migrates them all if none of them starves and the newest twenty ids can be
      decoded in the end; if one starves, no run ever does. */
  lemma RunFinishesIffNoneStarved(env: Env, db: Db, starts: seq<Start>)
    requires db.Valid() && (db.done ==> db.legacy == []) && Migratables(env, db.legacy) <= CleanOnes(env, db, starts)
    ensures Listable(Run(env, db, starts)) ==>
              (Migratables(env, Run(env, db, starts).legacy) == 0 <==> NoneStarved(env, db.legacy))
    ensures !NoneStarved(env, db.legacy) ==> Migratables(env, Run(env, db, starts).legacy) > 0
    ensures AllReadable(db.legacy) ==> Listable(Run(env, db, starts))
  {
    StarvationAfter(env, db, starts);
    if AllReadable(db.legacy) {
      StaysListable(env, db, starts);
    }
    var rows := Run(env, db, starts).legacy;
    if !NoneStarved(env, rows) {
      var i :| 0 <= i < |rows| && Migratable(env, rows[i]) && Stuck(env, rows[..i]) >= BATCH;
      MigratableCounts(env, rows, i);
    }
  }

  lemma {:induction false} StarvationAfter(env: Env, db: Db, starts: seq<Start>)
    requires db.Valid() && (db.done ==> db.legacy == [])
    ensures var d := Run(env, db, starts);
            && d.Valid() && (d.done ==> d.legacy == [])
            && (NoneStarved(env, d.legacy) <==> NoneStarved(env, db.legacy))
            && (NoneStarved(env, db.legacy) && Listable(d) ==>
                  || Migratables(env, d.legacy) == 0
                  || Migratables(env, d.legacy) + CleanOnes(env, db, starts) <= Migratables(env, db.legacy))
  {
    if starts != [] {
      var init, s := starts[..|starts| - 1], starts[|starts| - 1];
      StarvationAfter(env, db, init);
      StarvationStep(env, Run(env, db, init), s);
    }
  }

  lemma StarvationStep(env: Env, d: Db, s: Start)
    requires d.Valid() && (d.done ==> d.legacy == [])
    ensures var e := AfterStart(env, d, s.picked, s.looked);
            && e.Valid() && (e.done ==> e.legacy == [])
            && (NoneStarved(env, e.legacy) <==> NoneStarved(env, d.legacy))
            && Migratables(env, e.legacy) <= Migratables(env, d.legacy)
            && (Listable(e) ==> Listable(d))
            && (NoneStarved(env, d.legacy) && Clean(d, s) && Listable(d) && Migratables(env, d.legacy) > 0 ==>
                  Migratables(env, e.legacy) < Migratables(env, d.legacy))
  {
    if !d.done && Listable(d) {
      var picked := s.picked * Groups(Batch(d));
      MigratingCounts(env, d.legacy, picked);
      RemainingValid(env, d.legacy, picked);
      if NoneStarved(env, d.legacy) {
        UnstarvedStays(env, d.legacy, picked);
      } else {
        StarvedStays(env, d, picked);
      }
      if Clean(d, s) && NoneStarved(env, d.legacy) && Migratables(env, d.legacy) > 0 {
        assert picked == Groups(Batch(d)) == Groups(Batch(d)) * Groups(Batch(d));
        assert AfterStart(env, d, s.picked, s.looked) == CleanStart(env, d);
        UnstarvedProgress(env, d);
      }
    }
  }

  // ---------------------------------------------------------------- databases that never finish

  /** Row number `i`, its group having the id of `i` letters. */
  function Row(i: nat, blob: Bytes, readable: bool): (row: Legacy)
    ensures |row.group| == i
  {
    Legacy(seq(i, _ => 'g'), blob, readable)
  }

  /** A library that exports nothing from an empty row and an empty history from any other. */
  function SampleEnv(): Env {
    Env((_, blob) => if blob == [] then Absent else Entries([]))
  }

  /** Twenty stuck rows, then one that could be migrated. */
  function StarvedRows(): (rows: seq<Legacy>)
    ensures |rows| == 21 && forall i :: 0 <= i < 21 ==> rows[i] == Row(i, if i < 20 then [] else [1], true)
  {
    seq(21, i requires 0 <= i => Row(i, if i < 20 then [] else [1], true))
  }

  /** Twenty rows that can be migrated, one with an undecodable id, and one more that could be migrated. */
  function InterruptedRows(): (rows: seq<Legacy>)
    ensures |rows| == 22 && forall i :: 0 <= i < 22 ==> rows[i] == Row(i, if i == 20 then [] else [1], i != 20)
  {
    seq(22, i requires 0 <= i => Row(i, if i == 20 then [] else [1], i != 20))
  }

  lemma {:induction false} CountsOfBlob(rows: seq<Legacy>, blob: Bytes)
    requires forall i :: 0 <= i < |rows| ==> rows[i].blob == blob
    ensures Stuck(SampleEnv(), rows) == if blob == [] then |rows| else 0
  {
    if rows != [] {
      CountsOfBlob(rows[1..], blob);
    }
  }

  /** Twenty stuck rows starve the one behind them: no number of starts gets to it. */
  lemma TwentyStuckRowsStarve(n: nat)
    ensures var db := Db(StarvedRows(), map[], false);
            && db.Valid() && AllReadable(db.legacy) && !NoneStarved(SampleEnv(), db.legacy)
            && Migratables(SampleEnv(), CleanStarts(SampleEnv(), db, n).legacy) > 0
  {
    var env, rows := SampleEnv(), StarvedRows();
    var db := Db(rows, map[], false);
    CountsOfBlob(rows[..20], []);
    assert Migratable(env, rows[20]);
    DistinctGroups(rows);
    ClearsIffNoneStarved(env, rows);
    MigrationFinishesIffRowsClear(env, db);
  }

  /** Starving nobody, and listable at first, but never finished: after the first start the undecodable id is
      among the newest twenty rows. */
  lemma UndecodableRowStops(n: nat)
    ensures var db := Db(InterruptedRows(), map[], false);
            && db.Valid() && Listable(db) && NoneStarved(SampleEnv(), db.legacy)
            && Migratables(SampleEnv(), CleanStarts(SampleEnv(), db, n).legacy) > 0
  {
    NobodyStarves();
    NeverClears();
    MigrationFinishesIffRowsClear(SampleEnv(), Db(InterruptedRows(), map[], false));
  }

  lemma NobodyStarves()
    ensures var db := Db(InterruptedRows(), map[], false);
            db.Valid() && Listable(db) && NoneStarved(SampleEnv(), db.legacy)
  {
    DistinctGroups(InterruptedRows());
    NoneStuckFirst();
    TooFewToStarve(SampleEnv(), InterruptedRows(), 20);
  }

  lemma DistinctGroups(rows: seq<Legacy>)
    requires forall i :: 0 <= i < |rows| ==> |rows[i].group| == i
    ensures Db(rows, map[], false).Valid()
  {
  }

  lemma NeverClears()
    ensures !Clears(SampleEnv(), InterruptedRows())
  {
    forall t: nat
      ensures !ClearsBy(SampleEnv(), InterruptedRows(), t)
    {
      NotClearedBy(t);
    }
  }

  lemma NoneStuckFirst()
    ensures Stuck(SampleEnv(), InterruptedRows()[..20]) == 0
  {
    CountsOfBlob(InterruptedRows()[..20], [1]);
  }

  /** With at most twenty rows after the last stuck-free stretch, nobody can starve. */
  lemma TooFewToStarve(env: Env, rows: seq<Legacy>, p: nat)
    requires p <= |rows| <= p + BATCH && Stuck(env, rows[..p]) == 0
    ensures NoneStarved(env, rows)
  {
    forall i | 0 <= i < |rows|
      ensures Stuck(env, rows[..i]) < BATCH
    {
      StuckBetween(env, rows, Min(i, p), if i < p then p else i);
    }
  }

  lemma NotClearedBy(t: nat)
    ensures !ClearsBy(SampleEnv(), InterruptedRows(), t)
  {
    var env, rows := SampleEnv(), InterruptedRows();
    var p := Listed(env, rows, t);
    InterruptedListing();
    if t < 2 {
      ListedGrows(env, rows, t, 1);
      assert rows[p..][21 - p] == rows[21];
      MigratableCounts(env, rows[p..], 21 - p);
    } else {
      ListedGrows(env, rows, 2, t);
      assert !rows[..p][20].readable;
    }
  }

  lemma InterruptedListing()
    ensures Listed(SampleEnv(), InterruptedRows(), 1) == 20 && Listed(SampleEnv(), InterruptedRows(), 2) == 22
  {
    var env, rows := SampleEnv(), InterruptedRows();
    assert rows[..Listed(env, rows, 0)] == [];
    assert Listed(env, rows, 1) == 20;
    NoneStuckFirst();
  }
}
