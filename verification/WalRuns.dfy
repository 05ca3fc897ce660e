/** Whole runs of the decrypt cache: crash safety, single use of keys, retries, conflicts, and the
    transparency of pruning. */
module WalRuns {
  import opened Common
  import opened Wal

  /** What can happen to the store. A decrypt call may roll back, or commit and lose its reply (a crash
      before the caller hears of it). `Evolve` is any other use of the library: commits, welcomes,
      decryption outside the cache; it leaves the group with the given usable keys. */
  datatype Event =
    | Call(now: nat, slot: Slot, message: Bytes, rollback: bool)
    | PruneAt(now: nat, ok: bool)
    | DeleteGroup(group: GroupId, ok: bool)
    | Evolve(group: GroupId, usable: set<nat>)

  function After(env: Env, db: Db, e: Event): Db {
    match e
    case Call(now, slot, message, rollback) => if rollback then db else Process(env, db, now, slot, message).db
    case PruneAt(now, ok) => if ok then Prune(env, db, now) else db
    case DeleteGroup(group, ok) => if ok then Delete(env, db, group) else db
    case Evolve(group, usable) => db.(keys := db.keys[group := usable])
  }

  function Run(env: Env, db: Db, events: seq<Event>): Db {
    if events == [] then db else After(env, Run(env, db, events[..|events| - 1]), events[|events| - 1])
  }

  // ---------------------------------------------------------------- crash safety

  /** A key consumed by a cached decrypt: for which slot and ciphertext, the row to be stored with it, whether a live
      row of another version was in the way, and whether the row has since been legitimately given up. */
  datatype Use = Use(slot: Slot, message: Bytes, row: Row, blocked: bool, retired: bool)

  datatype Log = Log(db: Db, uses: map<Key, Use>)

  /** The key a call consumes in this state, if any. */
  function Consumed(env: Env, db: Db, e: Event): Option<Key> {
    if e.Call? && !e.rollback && e.now + env.ttl <= I64_MAX
       && Load(env, db.rows, e.slot, e.now).None? && Decrypt(env, db, e.slot.group, e.message).Some?
    then Some(Key(e.slot.group, env.keyOf(e.slot.group, e.message)))
    else None
  }

  /** The only three reasons to give a row up: a prune at or after its expiry, a successful decrypt for the same slot
      after its expiry, deletion of its group. */
  function Retires(env: Env, db: Db, e: Event, u: Use): bool {
    match e
    case Call(now, slot, _, _) => Consumed(env, db, e).Some? && u.slot == slot && u.row.expires <= now
    case PruneAt(now, ok) => ok && u.row.expires <= now
    case DeleteGroup(group, ok) => ok && u.slot.group == group
    case Evolve(_, _) => false
  }

  function Record(env: Env, log: Log, e: Event): Log {
    var kept := map k | k in log.uses ::
      log.uses[k].(retired := log.uses[k].retired || Retires(env, log.db, e, log.uses[k]));
    var uses := match Consumed(env, log.db, e)
      case None => kept
      case Some(k) =>
        var plaintext := Decrypt(env, log.db, e.slot.group, e.message).value;
        var blocked := Blocked(env, log.db.rows, e.slot, e.now);
        kept[k := Use(e.slot, e.message, NewRow(env, e.now, e.message, plaintext), blocked, false)];
    Log(After(env, log.db, e), uses)
  }

  function Replay(env: Env, log: Log, events: seq<Event>): Log {
    if events == [] then log else Record(env, Replay(env, log, events[..|events| - 1]), events[|events| - 1])
  }

  /** Forward secrecy of the library: a consumed key never becomes usable again. */
  ghost predicate ForwardSecret(env: Env, log: Log, events: seq<Event>) {
    forall i :: 0 <= i < |events| && events[i].Evolve? ==>
      forall n :: n in events[i].usable ==> Key(events[i].group, n) !in Replay(env, log, events[..i]).uses
  }

  /** The use a row came from: same slot, the digest and plaintext of that ciphertext, a lifetime of one TTL. */
  ghost predicate Genuine(env: Env, k: Key, u: Use) {
    && k == Key(u.slot.group, env.keyOf(u.slot.group, u.message))
    && env.open(u.slot.group, u.message) == Some(u.row.plaintext)
    && u.row.version == env.version
    && u.row.digest == env.sha(u.message) && u.row.expires == u.row.created + env.ttl
  }

  /** Every consumed key that was not blocked and is not retired has its row; every row of the own version comes from a
      consumed key that was not blocked; consumed keys are not usable. Rows of other versions may be anything. */
  ghost predicate Safe(env: Env, log: Log) {
    && (forall k :: k in log.uses ==> Genuine(env, k, log.uses[k]))
    && (forall k :: k in log.uses && !log.uses[k].blocked && !log.uses[k].retired ==> Holds(log.db, log.uses[k]))
    && (forall s :: s in log.db.rows && log.db.rows[s].version == env.version ==> Written(log.uses, s, log.db.rows[s]))
    && (forall g, n :: g in log.db.keys && n in log.db.keys[g] ==> Key(g, n) !in log.uses)
  }

  /** Some consumed key that was not blocked was recorded together with this row. */
  ghost predicate Written(uses: map<Key, Use>, slot: Slot, row: Row) {
    exists k :: k in uses && WroteRow(uses[k], slot, row)
  }

  predicate WroteRow(u: Use, slot: Slot, row: Row) {
    u.slot == slot && u.row == row && !u.blocked
  }

  ghost predicate Holds(db: Db, u: Use) {
    u.slot in db.rows && db.rows[u.slot] == u.row
  }

  lemma CallKeepsSafe(env: Env, log: Log, e: Event)
    requires Safe(env, log) && e.Call?
    ensures Safe(env, Record(env, log, e))
  {
    var next := Record(env, log, e);
    match Consumed(env, log.db, e) {
      case None =>
        assert next.db == log.db;
        forall s | s in next.db.rows && next.db.rows[s].version == env.version
          ensures Written(next.uses, s, next.db.rows[s])
        {
          StaysWritten(env, log, e, s);
        }
      case Some(k) =>
        ConsumeKeepsSafe(env, log, e, k);
    }
  }

  /** Later events do not change who wrote a row. */
  lemma StaysWritten(env: Env, log: Log, e: Event, s: Slot)
    requires Safe(env, log) && s in log.db.rows && log.db.rows[s].version == env.version
    ensures Written(Record(env, log, e).uses, s, log.db.rows[s])
  {
    var k :| k in log.uses && WroteRow(log.uses[k], s, log.db.rows[s]);
    var uses := Record(env, log, e).uses;
    assert Consumed(env, log.db, e) != Some(k);
    assert k in uses && WroteRow(uses[k], s, log.db.rows[s]);
  }

  lemma ConsumeKeepsSafe(env: Env, log: Log, e: Event, k: Key)
    requires Safe(env, log) && e.Call? && Consumed(env, log.db, e) == Some(k)
    ensures Safe(env, Record(env, log, e))
  {
    var next := Record(env, log, e);
    var row := NewRow(env, e.now, e.message, Decrypt(env, log.db, e.slot.group, e.message).value);
    var blocked := Blocked(env, log.db.rows, e.slot, e.now);
    UpsertAfterMiss(env, log.db.rows, e.slot, e.now, row);
    assert k !in log.uses && next.uses[k] == Use(e.slot, e.message, row, blocked, false);
    forall j | j in next.uses && !next.uses[j].blocked && !next.uses[j].retired
      ensures Holds(next.db, next.uses[j])
    {
      if j != k {
        assert Holds(log.db, log.uses[j]);
      }
    }
    forall s | s in next.db.rows && next.db.rows[s].version == env.version
      ensures Written(next.uses, s, next.db.rows[s])
    {
      if s == e.slot && !blocked {
        assert WroteRow(next.uses[k], s, row);
      } else {
        StaysWritten(env, log, e, s);
      }
    }
  }

  lemma OtherEventKeepsSafe(env: Env, log: Log, e: Event)
    requires Safe(env, log) && !e.Call?
    requires e.Evolve? ==> forall n :: n in e.usable ==> Key(e.group, n) !in log.uses
    ensures Safe(env, Record(env, log, e))
  {
    var next := Record(env, log, e);
    forall s | s in next.db.rows && next.db.rows[s].version == env.version
      ensures Written(next.uses, s, next.db.rows[s])
    {
      StaysWritten(env, log, e, s);
    }
  }

  /** Crash safety: over every run of decrypts, prunes, deletions, rollbacks, lost replies and other library use,
      and with whatever rows of other versions, a consumed key that was not blocked keeps its row, holding that
      ciphertext's digest and plaintext, until one of the three reasons; and every row of the own version was
      written together with the consumption of such a key. */
  lemma {:induction false} EveryRunIsSafe(env: Env, log: Log, events: seq<Event>)
    requires Safe(env, log) && ForwardSecret(env, log, events)
    ensures Safe(env, Replay(env, log, events))
    ensures Replay(env, log, events).db == Run(env, log.db, events)
  {
    if events != [] {
      var n := |events| - 1;
      var init := events[..n];
      assert forall i :: 0 <= i < n ==> init[..i] == events[..i];
      EveryRunIsSafe(env, log, init);
      var before := Replay(env, log, init);
      if events[n].Call? {
        CallKeepsSafe(env, before, events[n]);
      } else {
        OtherEventKeepsSafe(env, before, events[n]);
      }
    }
  }

  /** In any database, a successful decrypt after a miss leaves its row if and only if it is not blocked; if it is,
      no row changes. */
  lemma MissCachesIffNotBlocked(env: Env, db: Db, e: Event)
    requires Consumed(env, db, e).Some?
    ensures var after := After(env, db, e);
            var row := NewRow(env, e.now, e.message, Decrypt(env, db, e.slot.group, e.message).value);
            && (e.slot in after.rows && after.rows[e.slot] == row <==> !Blocked(env, db.rows, e.slot, e.now))
            && (Blocked(env, db.rows, e.slot, e.now) ==> after.rows == db.rows)
  {
    var row := NewRow(env, e.now, e.message, Decrypt(env, db, e.slot.group, e.message).value);
    UpsertAfterMiss(env, db.rows, e.slot, e.now, row);
  }

  /** All rows are of the own version. */
  ghost predicate OwnRows(env: Env, db: Db) {
    forall s :: s in db.rows ==> db.rows[s].version == env.version
  }

  /** So in every run that starts without rows of another version, every successful decrypt after a miss leaves its
      row. */
  lemma MissAlwaysCaches(env: Env, db: Db, events: seq<Event>, e: Event)
    requires OwnRows(env, db) && Consumed(env, Run(env, db, events), e).Some?
    ensures var now := Run(env, db, events);
            var after := After(env, now, e);
            e.slot in after.rows && after.rows[e.slot] ==
              NewRow(env, e.now, e.message, Decrypt(env, now, e.slot.group, e.message).value)
  {
    OwnRowsStay(env, db, events);
    MissCachesIffNotBlocked(env, Run(env, db, events), e);
  }

  lemma {:induction false} OwnRowsStay(env: Env, db: Db, events: seq<Event>)
    requires OwnRows(env, db)
    ensures OwnRows(env, Run(env, db, events))
  {
    if events != [] {
      OwnRowsStay(env, db, events[..|events| - 1]);
    }
  }

  /** A store without rows of the own version is safe, whatever else it holds. */
  lemma FreshIsSafe(env: Env, db: Db)
    requires forall s :: s in db.rows ==> db.rows[s].version != env.version
    ensures Safe(env, Log(db, map[]))
  {
  }

  lemma {:induction false} UsesGrow(env: Env, log: Log, events: seq<Event>, i: nat)
    requires i <= |events|
    ensures Replay(env, log, events[..i]).uses.Keys <= Replay(env, log, events).uses.Keys
    decreases |events|
  {
    if i == |events| {
      assert events[..i] == events;
    } else {
      var init := events[..|events| - 1];
      assert init[..i] == events[..i];
      UsesGrow(env, log, init, i);
    }
  }

  /** No key is consumed twice in any run. */
  lemma KeysAreConsumedOnce(env: Env, log: Log, events: seq<Event>, i: nat, j: nat)
    requires Safe(env, log) && ForwardSecret(env, log, events) && i < j < |events|
    requires Consumed(env, Run(env, log.db, events[..i]), events[i]).Some?
    ensures Consumed(env, Run(env, log.db, events[..j]), events[j]) !=
            Consumed(env, Run(env, log.db, events[..i]), events[i])
  {
    RunPrefixIsForwardSecret(env, log, events, i);
    RunPrefixIsForwardSecret(env, log, events, j);
    EveryRunIsSafe(env, log, events[..i]);
    EveryRunIsSafe(env, log, events[..j]);
    var key := Consumed(env, Run(env, log.db, events[..i]), events[i]).value;
    assert events[..i + 1][..i] == events[..i];
    assert key in Replay(env, log, events[..i + 1]).uses;
    assert events[..j][..i + 1] == events[..i + 1];
    UsesGrow(env, log, events[..j], i + 1);
    assert key in Replay(env, log, events[..j]).uses;
  }

  lemma RunPrefixIsForwardSecret(env: Env, log: Log, events: seq<Event>, n: nat)
    requires ForwardSecret(env, log, events) && n <= |events|
    ensures ForwardSecret(env, log, events[..n])
  {
    assert forall i :: 0 <= i < n ==> events[..n][..i] == events[..i];
  }

  // ---------------------------------------------------------------- retries and conflicts

  /** Nothing here reaches the row's expiry or deletes its group. */
  ghost predicate Within(row: Row, group: GroupId, events: seq<Event>) {
    forall i :: 0 <= i < |events| ==>
      match events[i]
      case Call(now, _, _, _) => now < row.expires
      case PruneAt(now, _) => now < row.expires
      case DeleteGroup(g, ok) => !(ok && g == group)
      case Evolve(_, _) => true
  }

  lemma {:induction false} RowSurvives(env: Env, db: Db, slot: Slot, row: Row, events: seq<Event>)
    requires slot in db.rows && db.rows[slot] == row && row.version == env.version
    requires Within(row, slot.group, events)
    ensures slot in Run(env, db, events).rows && Run(env, db, events).rows[slot] == row
  {
    if events != [] {
      RowSurvives(env, db, slot, row, events[..|events| - 1]);
    }
  }

  /** After a successful cached decrypt that was not blocked, and whatever happens before expiry except deletion of
      the group, calling again with the same ids returns the same plaintext for the same ciphertext and a conflict
      for one with another digest, and leaves keys and rows untouched either way. */
  lemma RetryReturnsTheSame(env: Env, db: Db, call: Event, events: seq<Event>, now: nat, message: Bytes)
    requires call.Call? && Consumed(env, db, call).Some?
    requires !Blocked(env, db.rows, call.slot, call.now)
    requires var row := NewRow(env, call.now, call.message, Decrypt(env, db, call.slot.group, call.message).value);
             Within(row, call.slot.group, events) && now < row.expires && now + env.ttl <= I64_MAX
    ensures var later := Run(env, After(env, db, call), events);
            var first := Process(env, db, call.now, call.slot, call.message).outcome;
            Process(env, later, now, call.slot, message) ==
              Step(later, if env.sha(message) == env.sha(call.message) then first else Conflict)
  {
    var row := NewRow(env, call.now, call.message, Decrypt(env, db, call.slot.group, call.message).value);
    MissCachesIffNotBlocked(env, db, call);
    RowSurvives(env, After(env, db, call), call.slot, row, events);
  }

  /** A live row of another version goes away by no event before its expiry. */
  lemma {:induction false} OtherRowSurvives(env: Env, db: Db, slot: Slot, row: Row, events: seq<Event>)
    requires slot in db.rows && db.rows[slot] == row && row.version != env.version
    requires forall i :: 0 <= i < |events| && events[i].Call? ==> events[i].now < row.expires
    ensures slot in Run(env, db, events).rows && Run(env, db, events).rows[slot] == row
  {
    if events != [] {
      var n := |events| - 1;
      assert forall i :: 0 <= i < n ==> events[..n][i] == events[i];
      OtherRowSurvives(env, db, slot, row, events[..n]);
    }
  }

  /** A blocked decrypt, in contrast, cannot be repeated: while the row in the way lives, calling again with the same
      ciphertext fails, whatever happens in between. The run begins with the blocked call. */
  lemma BlockedRetryFails(env: Env, log: Log, events: seq<Event>, now: nat, later: Db)
    requires Safe(env, log) && ForwardSecret(env, log, events) && later == Run(env, log.db, events)
    requires events != [] && Consumed(env, log.db, events[0]).Some?
    requires Blocked(env, log.db.rows, events[0].slot, events[0].now)
    requires var other := log.db.rows[events[0].slot];
             && (forall i :: 0 <= i < |events| && events[i].Call? ==> events[i].now < other.expires)
             && now < other.expires && now + env.ttl <= I64_MAX
    ensures Process(env, later, now, events[0].slot, events[0].message) == Step(later, Failed)
  {
    var call := events[0];
    var end := Replay(env, log, events);
    EveryRunIsSafe(env, log, events);
    FirstConsumedIsRecorded(env, log, events);
    OtherRowSurvives(env, log.db, call.slot, log.db.rows[call.slot], events);
    SpentKeyFails(env, end, call.slot, call.message, now);
  }

  lemma FirstConsumedIsRecorded(env: Env, log: Log, events: seq<Event>)
    requires events != [] && Consumed(env, log.db, events[0]).Some?
    ensures Consumed(env, log.db, events[0]).value in Replay(env, log, events).uses
  {
    assert events[..1][..0] == [];
    UsesGrow(env, log, events, 1);
    assert Replay(env, log, events[..1]) == Record(env, log, events[0]);
  }

  lemma SpentKeyFails(env: Env, log: Log, slot: Slot, message: Bytes, now: nat)
    requires Safe(env, log) && Key(slot.group, env.keyOf(slot.group, message)) in log.uses
    requires Load(env, log.db.rows, slot, now).None? && now + env.ttl <= I64_MAX
    ensures Process(env, log.db, now, slot, message) == Step(log.db, Failed)
  {
  }

  /** After its group is deleted, and until a call for it decrypts again, every load for the group misses: nothing
      cached for it can be had any more. */
  lemma DeletedGroupMisses(env: Env, db: Db, group: GroupId, events: seq<Event>, slot: Slot, now: nat)
    requires forall s :: s in db.rows ==> !(s.group == group && db.rows[s].version == env.version)
    requires forall i :: 0 <= i < |events| && events[i].Call? && events[i].slot.group == group ==>
               Consumed(env, Run(env, db, events[..i]), events[i]).None?
    requires slot.group == group
    ensures Load(env, Run(env, db, events).rows, slot, now).None?
  {
    RowsStayAway(env, db, group, events);
  }

  lemma {:induction false} RowsStayAway(env: Env, db: Db, group: GroupId, events: seq<Event>)
    requires forall s :: s in db.rows ==> !(s.group == group && db.rows[s].version == env.version)
    requires forall i :: 0 <= i < |events| && events[i].Call? && events[i].slot.group == group ==>
               Consumed(env, Run(env, db, events[..i]), events[i]).None?
    ensures var rows := Run(env, db, events).rows;
            forall s :: s in rows ==> !(s.group == group && rows[s].version == env.version)
  {
    if events != [] {
      var n := |events| - 1;
      assert forall i :: 0 <= i < n ==> events[..n][i] == events[i] && events[..n][..i] == events[..i];
      RowsStayAway(env, db, group, events[..n]);
      NoRowAppears(env, Run(env, db, events[..n]), group, events[n]);
    }
  }

  lemma NoRowAppears(env: Env, db: Db, group: GroupId, e: Event)
    requires forall s :: s in db.rows ==> !(s.group == group && db.rows[s].version == env.version)
    requires e.Call? && e.slot.group == group ==> Consumed(env, db, e).None?
    ensures var rows := After(env, db, e).rows;
            forall s :: s in rows ==> !(s.group == group && rows[s].version == env.version)
  {
  }

  /** In particular after any run that ends with a deletion, and whatever prunes, deletions, other library use and calls
      for other groups follow. */
  lemma DeletionForgets(env: Env, db: Db, group: GroupId, events: seq<Event>, slot: Slot, now: nat)
    requires slot.group == group
    requires forall i :: 0 <= i < |events| ==> !(events[i].Call? && events[i].slot.group == group)
    ensures var after := Run(env, After(env, db, DeleteGroup(group, true)), events);
            Load(env, after.rows, slot, now).None?
  {
    DeletedGroupMisses(env, After(env, db, DeleteGroup(group, true)), group, events, slot, now);
  }

  // ---------------------------------------------------------------- pruning is invisible

  /** What can still influence anything from `now` on: all but the expired rows of the own version. */
  function Visible(env: Env, db: Db, slot: Slot, now: nat): Option<Row> {
    if slot in db.rows && !(db.rows[slot].version == env.version && db.rows[slot].expires <= now)
    then Some(db.rows[slot]) else None
  }

  ghost predicate Same(env: Env, a: Db, b: Db, now: nat) {
    a.keys == b.keys && forall s :: Visible(env, a, s, now) == Visible(env, b, s, now)
  }

  /** The outcomes of the decrypt calls of a run, in order (`None` for one that was rolled back). */
  function Outcomes(env: Env, db: Db, events: seq<Event>): seq<Option<Outcome>>
    decreases |events|
  {
    if events == [] then [] else
    var e := events[0];
    (if !e.Call? then []
     else [if e.rollback then None else Some(Process(env, db, e.now, e.slot, e.message).outcome)])
    + Outcomes(env, After(env, db, e), events[1..])
  }

  function WithoutPrunes(events: seq<Event>): seq<Event> {
    if events == [] then [] else (if events[0].PruneAt? then [] else [events[0]]) + WithoutPrunes(events[1..])
  }

  /** The clock does not go back. */
  ghost predicate Ticking(now: nat, events: seq<Event>)
    decreases |events|
  {
    events == [] ||
    match events[0]
    case Call(t, _, _, _) => now <= t && Ticking(t, events[1..])
    case PruneAt(t, _) => now <= t && Ticking(t, events[1..])
    case _ => Ticking(now, events[1..])
  }

  lemma SameLater(env: Env, a: Db, b: Db, now: nat, t: nat)
    requires Same(env, a, b, now) && now <= t
    ensures Same(env, a, b, t)
  {
    forall s ensures Visible(env, a, s, t) == Visible(env, b, s, t) {
      assert Visible(env, a, s, now) == Visible(env, b, s, now);
    }
  }

  lemma PruneIsInvisible(env: Env, a: Db, b: Db, now: nat)
    requires Same(env, a, b, now)
    ensures Same(env, Prune(env, a, now), b, now)
  {
    forall s ensures Visible(env, Prune(env, a, now), s, now) == Visible(env, b, s, now) {
      assert Visible(env, a, s, now) == Visible(env, b, s, now);
    }
  }

  lemma CallCannotTell(env: Env, a: Db, b: Db, e: Event)
    requires e.Call? && Same(env, a, b, e.now)
    ensures Process(env, a, e.now, e.slot, e.message).outcome == Process(env, b, e.now, e.slot, e.message).outcome
    ensures Same(env, After(env, a, e), After(env, b, e), e.now)
  {
    assert Visible(env, a, e.slot, e.now) == Visible(env, b, e.slot, e.now);
    assert Load(env, a.rows, e.slot, e.now) == Load(env, b.rows, e.slot, e.now);
    var a', b' := After(env, a, e), After(env, b, e);
    forall s ensures Visible(env, a', s, e.now) == Visible(env, b', s, e.now) {
      assert Visible(env, a, s, e.now) == Visible(env, b, s, e.now);
    }
  }

  lemma OthersCannotTell(env: Env, a: Db, b: Db, e: Event, now: nat)
    requires (e.DeleteGroup? || e.Evolve?) && Same(env, a, b, now)
    ensures Same(env, After(env, a, e), After(env, b, e), now)
  {
    var a', b' := After(env, a, e), After(env, b, e);
    forall s ensures Visible(env, a', s, now) == Visible(env, b', s, now) {
      assert Visible(env, a, s, now) == Visible(env, b, s, now);
    }
  }

  lemma {:induction false} PruningChangesNothing(env: Env, a: Db, b: Db, now: nat, events: seq<Event>)
    requires Same(env, a, b, now) && Ticking(now, events)
    ensures Outcomes(env, a, events) == Outcomes(env, b, WithoutPrunes(events))
    decreases |events|
  {
    if events != [] {
      var e, rest := events[0], events[1..];
      var kept := WithoutPrunes(rest);
      match e {
        case Call(t, _, _, _) =>
          SameLater(env, a, b, now, t);
          CallCannotTell(env, a, b, e);
          PruningChangesNothing(env, After(env, a, e), After(env, b, e), t, rest);
          assert ([e] + kept)[1..] == kept;
        case PruneAt(t, _) =>
          SameLater(env, a, b, now, t);
          PruneIsInvisible(env, a, b, t);
          PruningChangesNothing(env, After(env, a, e), b, t, rest);
          assert WithoutPrunes(events) == kept;
        case DeleteGroup(_, _) =>
          OthersCannotTell(env, a, b, e, now);
          PruningChangesNothing(env, After(env, a, e), After(env, b, e), now, rest);
          assert ([e] + kept)[1..] == kept;
        case Evolve(_, _) =>
          OthersCannotTell(env, a, b, e, now);
          PruningChangesNothing(env, After(env, a, e), After(env, b, e), now, rest);
          assert ([e] + kept)[1..] == kept;
      }
    }
  }

  /** Under a clock that does not go back, prunes inserted anywhere in a run change no outcome of any call. */
  lemma PruneTransparency(env: Env, db: Db, now: nat, events: seq<Event>)
    requires Ticking(now, events)
    ensures Outcomes(env, db, events) == Outcomes(env, db, WithoutPrunes(events))
  {
    PruningChangesNothing(env, db, db, now, events);
  }
}
