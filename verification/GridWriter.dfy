/** The single writer of the grid store: the loops that build and commit Pebble
    batches, proved against the state machine of GridStore. */
module GridWriter {
  import opened Common
  import opened Bytes
  import opened Pebble
  import opened GridRecord
  import opened GridKeys
  import opened GridStore

  const MAINTENANCE_BATCH_CAP := 1024

  // ---------------------------------------------------------------- batch algebra

  /** The operations one record appends to the batch. */
  function UpsertOps(base: DB, c: bytes, inc: RecordValue): (ops: seq<Op>)
    requires Readable(base, c)
  {
    var m := Merged(base, c, inc);
    var u0 := UpdatedAt(base, c);
    [Op.Set(CallKey(c), Encoded(m))]
    + (if u0.Some? && u0.value != 0 && u0.value != m.updatedAt then [Op.Delete(UpdatedKey(u0.value, c))] else [])
    + (if u0 != Some(m.updatedAt) then [Op.Set(UpdatedKey(m.updatedAt, c), [])] else [])
  }

  lemma NothingUpserted(s: State, recs: seq<Record>, now: int64)
    requires recs == []
    ensures Upserted(s, Incomings(recs, now)) == s
  {
    assert Incomings(recs, now) == [];
  }

  lemma {:induction false} CommitAppend(db: DB, a: seq<Op>, b: seq<Op>)
    ensures Commit(db, a + b) == Commit(Commit(db, a), b)
  {
    if b == [] {
      assert a + b == a;
    } else {
      var n := |b| - 1;
      CommitAppend(db, a, b[..n]);
      assert (a + b)[..|a| + n] == a + b[..n];
    }
  }

  lemma CommitUpTo3(db: DB, x: Op, d: seq<Op>, e: seq<Op>)
    requires |d| <= 1 && |e| <= 1
    ensures var r := ApplyOp(db, x);
            var r' := if d == [] then r else ApplyOp(r, d[0]);
            Commit(db, [x] + d + e) == if e == [] then r' else ApplyOp(r', e[0])
  {
    CommitAppend(db, [x] + d, e);
    CommitAppend(db, [x], d);
    CommitOne(db, x);
    if d != [] { assert d == [d[0]]; CommitOne(ApplyOp(db, x), d[0]); }
    if e != [] { assert e == [e[0]]; CommitOne(Commit(db, [x] + d), e[0]); }
  }

  lemma CommitOne(db: DB, x: Op)
    ensures Commit(db, [x]) == ApplyOp(db, x)
  {
    CommitSnoc(db, [], x);
    assert [] + [x] == [x];
  }

  lemma UpsertOpsCommit(cur: DB, base: DB, c: bytes, inc: RecordValue)
    requires Readable(base, c)
    ensures Commit(cur, UpsertOps(base, c, inc)) == UpsertRow(cur, base, c, inc)
  {
    hide Decode, Encoded, Merge;
    var m := Merged(base, c, inc);
    var u0 := UpdatedAt(base, c);
    CommitUpTo3(cur, Op.Set(CallKey(c), Encoded(m)),
      if u0.Some? && u0.value != 0 && u0.value != m.updatedAt then [Op.Delete(UpdatedKey(u0.value, c))] else [],
      if u0 != Some(m.updatedAt) then [Op.Set(UpdatedKey(m.updatedAt, c), [])] else []);
  }

  /** Some of the record rows re-encoded without their known flag. */
  function ClearedRows(db: DB, keys: seq<bytes>): (r: DB) {
    map k | k in db :: if k in keys && KnownRow(db, k) then Unknown(db[k]) else db[k]
  }

  lemma ClearedRowsStep(db: DB, keys: seq<bytes>, k: bytes)
    requires k in db
    ensures ClearedRows(db, keys + [k]) ==
            if KnownRow(db, k) then ClearedRows(db, keys)[k := Unknown(db[k])] else ClearedRows(db, keys)
  {
    hide Decode, Encoded, Unknown, KnownRow;
  }

  lemma ClearedRowsUnflagged(db: DB, keys: seq<bytes>)
    ensures Unflagged(db, ClearedRows(db, keys))
  {
    hide Decode, Encoded, Unknown, KnownRow;
  }

  lemma ClearedRowsAll(s: State, keys: seq<bytes>)
    requires forall k :: k in s.db && ParseCallKey(k).Some? ==> k in keys
    ensures State(ClearedRows(s.db, keys), s.count) == Cleared(s)
  {
    hide Decode, Encoded, Unknown;
  }

  /** Deleting entries and records, the count key aside. */
  function Without(db: DB, ks: set<bytes>): (r: DB) {
    db - (ks + RecordKeys(ks))
  }

  lemma RecordKeysUnion(a: set<bytes>, b: set<bytes>)
    ensures RecordKeys(a + b) == RecordKeys(a) + RecordKeys(b)
  {
    hide CallKey, ParseUpdatedKey;
  }

  lemma WithoutStep(db: DB, ks: set<bytes>, k: bytes)
    requires ParseUpdatedKey(k).Some?
    ensures Without(db, ks + {k}) == Without(db, ks) - {k} - {CallKey(ParseUpdatedKey(k).value.1)}
  {
    hide CallKey, ParseUpdatedKey;
    RecordKeysUnion(ks, {k});
    assert RecordKeys({k}) == {CallKey(ParseUpdatedKey(k).value.1)};
  }

  /** Two purge chunks compose into one. */
  lemma PurgedTwice(s: State, a: set<bytes>, b: set<bytes>)
    requires a !! b && b != {}
    requires META_COUNT_KEY !in a + b + RecordKeys(a + b)
    ensures PurgedKeys(s, a + b) ==
            var t := PurgedKeys(s, a);
            var count := Max(t.count - |b|, 0);
            State(Without(t.db, b)[META_COUNT_KEY := EncodeCount(count)], count)
  {
    hide CallKey, ParseUpdatedKey, EncodeCount, RecordKeys;
    if a == {} {
      assert a + b == b;
    } else {
      RecordKeysUnion(a, b);
      assert |a + b| == |a| + |b|;
      RemovedTwice(s.db, a, b, EncodeCount(Max(s.count - |a|, 0)), EncodeCount(Max(s.count - |a| - |b|, 0)));
    }
  }

  lemma RemovedTwice(db: DB, a: set<bytes>, b: set<bytes>, x: bytes, y: bytes)
    requires META_COUNT_KEY !in a + b + RecordKeys(a + b) && RecordKeys(a + b) == RecordKeys(a) + RecordKeys(b)
    ensures (db - (a + b + RecordKeys(a + b)))[META_COUNT_KEY := y]
            == Without((db - (a + RecordKeys(a)))[META_COUNT_KEY := x], b)[META_COUNT_KEY := y]
  {
    hide RecordKeys;
  }

  lemma RecordKeysEmpty()
    ensures RecordKeys({}) == {}
  {
  }

  lemma MetaNotPurged(db: DB, ks: set<bytes>)
    requires forall k :: k in ks ==> ParseUpdatedKey(k).Some?
    ensures META_COUNT_KEY !in ks && META_COUNT_KEY !in RecordKeys(ks)
  {
    NotRecordKey(ks, META_COUNT_KEY);
    assert ParseUpdatedKey(META_COUNT_KEY).None?;
  }

  /** The iterator's range holds every key the purge can reach, and of those that
      parse nothing else. */
  lemma ScanReaches(db: DB, cutoff: int64, k: bytes)
    requires cutoff > 0 && ParseUpdatedKey(k).Some?
    ensures InRange(k, UPDATED_PREFIX, UpdatedUpperBound(cutoff)) <==> ReachedKey(k, cutoff)
  {
    var (t, c) := ParseUpdatedKey(k).value;
    ParseUpdatedKeyIff(k, t, c);
    PurgeRange(t, c, cutoff);
  }

  // ---------------------------------------------------------------- the store

  class Store {
    var db: DB
    var count: int

    ghost function Abs(): (s: State)
      reads this
    {
      State(db, count)
    }

    /** Opening a fresh directory: the count is computed and persisted. */
    constructor ()
      ensures Abs() == EMPTY
    {
      db := EMPTY.db;
      count := 0;
    }

    /** applyUpsertBatch; committed is Pebble's answer to the one commit. */
    method ApplyUpsertBatch(recs: seq<Record>, now: int64, committed: bool) returns (ok: bool)
      modifies this
      ensures ok <==> recs == [] || (AllReadable(old(db), Incomings(recs, now)) && committed)
      ensures ok ==> Abs() == Upserted(old(Abs()), Incomings(recs, now))
      ensures !ok ==> Abs() == old(Abs())
    {
      hide Decode, UpsertRow, BatchDb, CountDelta, Incomings, AllReadable;
      if |recs| == 0 {
        NothingUpserted(Abs(), recs, now);
        return true;
      }
      var gathered, batch, countDelta := GatherOps(recs, now);
      if !gathered { return false; }
      var next := count;
      if countDelta != 0 {
        next := next + countDelta;
        if next < 0 { next := 0; }
        CommitSnoc(db, batch, Op.Set(META_COUNT_KEY, EncodeCount(next)));
        batch := batch + [Op.Set(META_COUNT_KEY, EncodeCount(next))];
      }
      if !committed { return false; }
      db := Commit(db, batch);
      if countDelta != 0 { count := next; }
      return true;
    }

    /** The loop of applyUpsertBatch: the operations of every record, and how many calls are new. */
    method GatherOps(recs: seq<Record>, now: int64) returns (ok: bool, batch: seq<Op>, countDelta: nat)
      ensures ok <==> AllReadable(db, Incomings(recs, now))
      ensures ok ==> Commit(db, batch) == BatchDb(db, Incomings(recs, now))
      ensures ok ==> countDelta == CountDelta(db, Incomings(recs, now))
    {
      hide Decode, Encoded, UpsertRow, UpsertOps, NormalizeRecordValue, NormalizeCall, Merge;
      ghost var ins := Incomings(recs, now);
      batch, countDelta := [], 0;
      for i := 0 to |recs|
        invariant AllReadable(db, ins[..i])
        invariant Commit(db, batch) == BatchDb(db, ins[..i])
        invariant countDelta == CountDelta(db, ins[..i])
      {
        assert ins[..i + 1][..i] == ins[..i] && ins[..i + 1] == ins[..i] + [ins[i]];
        var call := NormalizeCall(recs[i].call);
        if call == [] { continue; }
        var incoming := NormalizeRecordValue(recs[i], now);
        if CallKey(call) in db && Decode(db[CallKey(call)]).Err? {
          assert !Readable(db, ins[i].call);
          return false, batch, countDelta;
        }
        var ops := RecordOps(call, incoming);
        if CallKey(call) !in db { countDelta := countDelta + 1; }
        UpsertOpsCommit(Commit(db, batch), db, call, incoming);
        CommitAppend(db, batch, ops);
        batch := batch + ops;
      }
      assert ins[..|recs|] == ins;
      ok := true;
    }

    /** The writes of one record: the merged value, the superseded index entry
        out and the new one in. */
    method RecordOps(call: bytes, incoming: RecordValue) returns (ops: seq<Op>)
      requires Readable(db, call)
      ensures ops == UpsertOps(db, call, incoming)
    {
      hide Decode, Encoded, Merge;
      var found := CallKey(call) in db;
      var existing := UpdatedAt(db, call);
      var merged := Merged(db, call, incoming);
      var buf := EncodeRecordValue(merged);
      ops := [Op.Set(CallKey(call), buf[..])];
      if found && existing.value != 0 && existing.value != merged.updatedAt {
        ops := ops + [Op.Delete(UpdatedKey(existing.value, call))];
      }
      if !found || existing.value != merged.updatedAt {
        ops := ops + [Op.Set(UpdatedKey(merged.updatedAt, call), [])];
      }
    }

    /** applyClearKnownFlags in chunks; failAt is the number of the commit Pebble
        refuses, none when all succeed. */
    method ApplyClearKnownFlags(failAt: Option<nat>) returns (ok: bool)
      modifies this
      ensures count == old(count) && Unflagged(old(db), db)
      ensures ok ==> Abs() == Cleared(old(Abs()))
      ensures failAt.None? && (forall k :: k in old(db) && ParseCallKey(k).Some? ==> Decode(old(db)[k]).Ok?)
              ==> ok
    {
      hide Decode, Encoded, Unknown, KnownRow, ClearedRows, LexLess, Unflagged, Cleared, Ascending, ClearPoint;
      var snapshot := db;
      var upper := PrefixUpperBound(CALL_PREFIX);
      var keys := Scan(db, CALL_PREFIX, upper);
      var batch: seq<Op> := [];
      var pending := 0;
      var commits := 0;
      ClearStart(snapshot);
      for i := 0 to |keys|
        invariant count == old(count) && snapshot == old(db)
        invariant ClearPoint(snapshot, db, batch, keys[..i], pending)
      {
        assert keys[..i + 1] == keys[..i] + [keys[i]] && keys[i] in keys;
        ClearVisit(snapshot, db, batch, keys[..i], pending, keys[i]);
        var call := ParseCallKey(keys[i]);
        if call.None? { continue; }
        var value := Decode(snapshot[keys[i]]);
        if value.Err? { return false; }
        if !value.value.isKnown { continue; }
        var buf := EncodeRecordValue(value.value.(isKnown := false));
        ParseCallKeyIff(keys[i], call.value);
        batch := batch + [Op.Set(CallKey(call.value), buf[..])];
        pending := pending + 1;
        if pending >= MAINTENANCE_BATCH_CAP {
          if failAt == Some(commits) { return false; }
          commits := commits + 1;
          ClearCommit(snapshot, db, batch, keys[..i + 1], pending);
          db := Commit(db, batch);
          batch := [];
          pending := 0;
        }
      }
      assert keys[..|keys|] == keys;
      ClearCommit(snapshot, db, batch, keys, pending);
      if pending > 0 {
        if failAt == Some(commits) { return false; }
        db := Commit(db, batch);
      }
      AllRecordsScanned(snapshot, upper, keys);
      ClearedRowsAll(old(Abs()), keys);
      return true;
    }

    /** applyPurgeOlderThan in chunks. On success the store takes the purged state.
        When commit number failAt is refused, the entries in gone are already
        deleted and persisted as removed, but the in-memory count keeps its old
        value. */
    method ApplyPurgeOlderThan(cutoff: Option<int64>, failAt: Option<nat>)
      returns (removed: nat, ok: bool, ghost gone: set<bytes>)
      modifies this
      ensures failAt.None? ==> ok
      ensures removed == |gone|
      ensures gone <= (if Effective(cutoff) then ReachedKeys(old(db), cutoff.value) else {})
      ensures ok ==> gone == (if Effective(cutoff) then ReachedKeys(old(db), cutoff.value) else {})
                     && Abs() == Purged(old(Abs()), cutoff)
      ensures !ok ==> db == PurgedKeys(old(Abs()), gone).db && count == old(count)
    {
      hide LexLess, RecordKeys, ParseUpdatedKey, CallKey, ReachedKeys, PurgedKeys, PurgePoint, PurgeKeys, Commit;
      hide Purged, Scan, UpdatedUpperBound, Ascending;
      if cutoff.None? || cutoff.value <= 0 {
        NoCutoff(Abs(), cutoff);
        return 0, true, {};
      }
      ghost var start := Abs();
      var keys := Scan(db, UPDATED_PREFIX, UpdatedUpperBound(cutoff.value));
      ScanIsPurgeKeys(db, cutoff.value, keys);
      var batch, next, pending, commits;
      ghost var waiting;
      batch, next, pending, commits, removed, ok, gone, waiting := PurgeLoop(keys, cutoff.value, failAt);
      PurgeReach(start, State(db, next), gone, waiting, batch, keys, removed, pending, cutoff.value, ok);
      if !ok { return removed, false, gone; }
      if pending > 0 {
        if failAt == Some(commits) { return removed, false, gone; }
        next := CommitChunk(batch, next, pending, start, gone, waiting, keys, removed);
        removed, gone := removed + pending, gone + waiting;
        assert keys[..|keys|] == keys;
        PurgeReach(start, State(db, next), gone, {}, [], keys, removed, 0, cutoff.value, true);
      }
      PurgeDone(start, State(db, next), gone, cutoff.value);
      count := next;
      return removed, true, gone;
    }

    /** The iteration: deletions gather in the batch and full batches are committed. */
    method PurgeLoop(keys: seq<bytes>, cutoff: int64, failAt: Option<nat>)
      returns (batch: seq<Op>, next: int, pending: nat, commits: nat, removed: nat, ok: bool,
               ghost gone: set<bytes>, ghost waiting: set<bytes>)
      requires PurgeKeys(db, cutoff, keys)
      modifies this`db
      ensures failAt.None? ==> ok
      ensures exists i :: 0 <= i <= |keys| && (ok ==> i == |keys|)
                && PurgePoint(old(Abs()), State(db, next), gone, waiting, batch, keys[..i], removed, pending)
    {
      hide LexLess, RecordKeys, ParseUpdatedKey, CallKey, ReachedKeys, PurgedKeys, PurgePoint, PurgeKeys;
      ghost var start := Abs();
      batch, next, pending, commits, removed, gone, waiting := [], count, 0, 0, 0, {}, {};
      PurgeStart(db, count);
      for i := 0 to |keys|
        invariant PurgePoint(start, State(db, next), gone, waiting, batch, keys[..i], removed, pending)
      {
        assert keys[..i + 1] == keys[..i] + [keys[i]];
        var parsed := ParseUpdatedKey(keys[i]);
        if parsed.None? {
          PurgeSkip(start, State(db, next), gone, waiting, batch, keys[..i], removed, pending, keys[i]);
          continue;
        }
        PurgeKeyAt(start.db, cutoff, keys, i);
        if parsed.value.0 > cutoff { break; }
        PurgeVisit(start, State(db, next), gone, waiting, batch, keys[..i], removed, pending, keys[i]);
        batch := batch + [Op.Delete(keys[i]), Op.Delete(CallKey(parsed.value.1))];
        pending, waiting := pending + 1, waiting + {keys[i]};
        if pending >= MAINTENANCE_BATCH_CAP {
          if failAt == Some(commits) {
            ok := false;
            return;
          }
          commits := commits + 1;
          next := CommitChunk(batch, next, pending, start, gone, waiting, keys[..i + 1], removed);
          removed, gone := removed + pending, gone + waiting;
          batch, pending, waiting := [], 0, {};
        }
      }
      ok := true;
    }

    /** commitBatch: write the lowered count into the batch and commit it. */
    method CommitChunk(batch: seq<Op>, before: int, pending: nat, ghost start: State, ghost gone: set<bytes>,
                       ghost waiting: set<bytes>, ghost visited: seq<bytes>, ghost removed: nat)
      returns (after: int)
      requires pending > 0
      requires PurgePoint(start, State(db, before), gone, waiting, batch, visited, removed, pending)
      modifies this`db
      ensures PurgePoint(start, State(db, after), gone + waiting, {}, [], visited, removed + pending, 0)
    {
      hide RecordKeys, ParseUpdatedKey, CallKey, EncodeCount, PurgedKeys;
      after := before - pending;
      if after < 0 { after := 0; }
      MetaNotPurged(db, gone + waiting);
      PurgedTwice(start, gone, waiting);
      CommitSnoc(db, batch, Op.Set(META_COUNT_KEY, EncodeCount(after)));
      db := Commit(db, batch + [Op.Set(META_COUNT_KEY, EncodeCount(after))]);
      WithoutNothing(db);
    }
  }

  /** Where the purge loop stands: cur holds the committed chunks, gone their index
      keys; waiting are the keys whose deletions are still in the batch. */
  ghost predicate PurgePoint(start: State, cur: State, gone: set<bytes>, waiting: set<bytes>, batch: seq<Op>,
                             visited: seq<bytes>, removed: nat, pending: nat) {
    && cur == PurgedKeys(start, gone)
    && removed == |gone| && pending == |waiting| && gone !! waiting
    && Commit(cur.db, batch) == Without(cur.db, waiting)
    && (forall k :: k in gone + waiting <==> k in visited && ParseUpdatedKey(k).Some?)
    && (pending == 0 ==> batch == [])
  }

  lemma PurgeStart(db: DB, count: int)
    ensures PurgePoint(State(db, count), State(db, count), {}, {}, [], [], 0, 0)
  {
    PurgedNothing(State(db, count));
  }

  /** The keys of the purge iterator: ascending, and of the index keys among them
      exactly the reached ones. */
  ghost predicate PurgeKeys(db: DB, cutoff: int64, keys: seq<bytes>) {
    && Ascending(keys)
    && forall k :: k in ReachedKeys(db, cutoff) <==> k in keys && ParseUpdatedKey(k).Some?
  }

  lemma ScanIsPurgeKeys(db: DB, cutoff: int64, keys: seq<bytes>)
    requires cutoff > 0 && keys == Scan(db, UPDATED_PREFIX, UpdatedUpperBound(cutoff))
    ensures PurgeKeys(db, cutoff, keys)
  {
    hide LexLess, UpdatedUpperBound, ParseUpdatedKey;
    AllEntriesScanned(db, cutoff, keys);
  }

  lemma PurgeKeyAt(db: DB, cutoff: int64, keys: seq<bytes>, i: nat)
    requires PurgeKeys(db, cutoff, keys) && i < |keys| && ParseUpdatedKey(keys[i]).Some?
    ensures keys[i] !in keys[..i] && ParseUpdatedKey(keys[i]).value.0 <= cutoff
  {
    hide LexLess, ParseUpdatedKey;
    NotSeenBefore(keys, i);
    assert keys[i] in ReachedKeys(db, cutoff);
  }

  lemma PurgeSkip(start: State, cur: State, gone: set<bytes>, waiting: set<bytes>, batch: seq<Op>,
                  visited: seq<bytes>, removed: nat, pending: nat, key: bytes)
    requires PurgePoint(start, cur, gone, waiting, batch, visited, removed, pending)
    requires ParseUpdatedKey(key).None?
    ensures PurgePoint(start, cur, gone, waiting, batch, visited + [key], removed, pending)
  {
    hide ParseUpdatedKey, PurgedKeys, Without, Commit;
  }

  lemma PurgeVisit(start: State, cur: State, gone: set<bytes>, waiting: set<bytes>, batch: seq<Op>,
                   visited: seq<bytes>, removed: nat, pending: nat, key: bytes)
    requires PurgePoint(start, cur, gone, waiting, batch, visited, removed, pending)
    requires ParseUpdatedKey(key).Some? && key !in visited
    ensures PurgePoint(start, cur, gone, waiting + {key},
                       batch + [Op.Delete(key), Op.Delete(CallKey(ParseUpdatedKey(key).value.1))],
                       visited + [key], removed, pending + 1)
  {
    hide ParseUpdatedKey, PurgedKeys, CallKey, Without, Commit;
    WithoutStep(cur.db, waiting, key);
    CommitTwo(cur.db, batch, Op.Delete(key), Op.Delete(CallKey(ParseUpdatedKey(key).value.1)));
    assert key !in gone + waiting;
  }

  lemma PurgeReach(start: State, cur: State, gone: set<bytes>, waiting: set<bytes>, batch: seq<Op>,
                   keys: seq<bytes>, removed: nat, pending: nat, cutoff: int64, all: bool)
    requires PurgeKeys(start.db, cutoff, keys)
    requires exists i :: 0 <= i <= |keys| && (all ==> i == |keys|)
               && PurgePoint(start, cur, gone, waiting, batch, keys[..i], removed, pending)
    ensures gone + waiting <= ReachedKeys(start.db, cutoff)
    ensures all ==> gone + waiting == ReachedKeys(start.db, cutoff)
    ensures all ==> PurgePoint(start, cur, gone, waiting, batch, keys, removed, pending)
    ensures cur == PurgedKeys(start, gone) && removed == |gone| && pending == |waiting|
  {
    hide ParseUpdatedKey, PurgedKeys, Without, Commit, ReachedKeys, Ascending;
    var i :| 0 <= i <= |keys| && (all ==> i == |keys|)
             && PurgePoint(start, cur, gone, waiting, batch, keys[..i], removed, pending);
    assert forall k :: k in keys[..i] ==> k in keys;
    assert all ==> keys[..i] == keys;
  }

  lemma NoCutoff(s: State, cutoff: Option<int64>)
    requires !Effective(cutoff)
    ensures Purged(s, cutoff) == s && PurgedKeys(s, {}) == s
  {
  }

  lemma PurgeDone(start: State, cur: State, gone: set<bytes>, cutoff: int64)
    requires cutoff > 0 && gone == ReachedKeys(start.db, cutoff) && cur == PurgedKeys(start, gone)
    ensures cur == Purged(start, Some(cutoff))
  {
  }

  /** Where the clearing loop stands: db holds the committed chunks. */
  ghost predicate ClearPoint(snapshot: DB, db: DB, batch: seq<Op>, visited: seq<bytes>, pending: nat) {
    && Unflagged(snapshot, db)
    && Commit(db, batch) == ClearedRows(snapshot, visited)
    && (pending == 0 ==> batch == [])
  }

  lemma ClearStart(db: DB)
    ensures ClearPoint(db, db, [], [], 0)
  {
    ClearedNothing(db);
    ClearedRowsUnflagged(db, []);
  }

  lemma ClearVisit(snapshot: DB, db: DB, batch: seq<Op>, visited: seq<bytes>, pending: nat, k: bytes)
    requires ClearPoint(snapshot, db, batch, visited, pending) && k in snapshot
    ensures Unflagged(snapshot, db)
    ensures if ParseCallKey(k).Some? && Decode(snapshot[k]).Ok? && Decode(snapshot[k]).value.isKnown
            then ClearPoint(snapshot, db,
                            batch + [Op.Set(k, Encoded(Decode(snapshot[k]).value.(isKnown := false)))],
                            visited + [k], pending + 1)
            else ClearPoint(snapshot, db, batch, visited + [k], pending)
  {
    hide Decode, Encoded, Unknown, KnownRow, ClearedRows, Unflagged;
    KnownRowIff(snapshot, k);
    ClearedRowsStep(snapshot, visited, k);
    if KnownRow(snapshot, k) {
      CommitSnoc(db, batch, Op.Set(k, Unknown(snapshot[k])));
    }
  }

  lemma ClearCommit(snapshot: DB, db: DB, batch: seq<Op>, visited: seq<bytes>, pending: nat)
    requires ClearPoint(snapshot, db, batch, visited, pending)
    ensures ClearPoint(snapshot, Commit(db, batch), [], visited, 0)
    ensures Unflagged(snapshot, db) && Unflagged(snapshot, Commit(db, batch))
    ensures Commit(db, batch) == ClearedRows(snapshot, visited) && (pending == 0 ==> Commit(db, batch) == db)
  {
    hide Decode, Encoded, Unknown, KnownRow, ClearedRows, Unflagged;
    ClearedRowsUnflagged(snapshot, visited);
  }

  lemma ClearedNothing(db: DB)
    ensures ClearedRows(db, []) == db
  {
  }

  lemma KnownRowIff(db: DB, k: bytes)
    requires k in db
    ensures KnownRow(db, k) <==> ParseCallKey(k).Some? && Decode(db[k]).Ok? && Decode(db[k]).value.isKnown
    ensures KnownRow(db, k) ==> Unknown(db[k]) == Encoded(Decode(db[k]).value.(isKnown := false))
  {
    hide Decode, Encoded;
  }

  lemma AllRecordsScanned(db: DB, upper: Option<bytes>, keys: seq<bytes>)
    requires forall k: bytes :: CALL_PREFIX <= k <==> InRange(k, CALL_PREFIX, upper)
    requires forall k :: k in keys <==> k in db && InRange(k, CALL_PREFIX, upper)
    ensures forall k :: k in db && ParseCallKey(k).Some? ==> k in keys
  {
    hide LexLess;
  }

  lemma PurgedNothing(s: State)
    ensures PurgedKeys(s, {}) == s && Without(s.db, {}) == s.db
  {
    RecordKeysEmpty();
  }

  lemma WithoutNothing(db: DB)
    ensures Without(db, {}) == db
  {
    RecordKeysEmpty();
  }

  lemma NotSeenBefore(keys: seq<bytes>, i: nat)
    requires Ascending(keys) && i < |keys|
    ensures keys[i] !in keys[..i]
  {
    hide LexLess;
    forall j | 0 <= j < i ensures keys[..i][j] != keys[i] { AscendingDistinct(keys, j, i); }
  }

  lemma CommitTwo(db: DB, batch: seq<Op>, x: Op, y: Op)
    ensures Commit(db, batch + [x, y]) == ApplyOp(ApplyOp(Commit(db, batch), x), y)
  {
    CommitSnoc(db, batch, x);
    CommitSnoc(db, batch + [x], y);
    assert batch + [x] + [y] == batch + [x, y];
  }

  lemma AllEntriesScanned(db: DB, cutoff: int64, keys: seq<bytes>)
    requires cutoff > 0
    requires forall k :: k in keys <==> k in db && InRange(k, UPDATED_PREFIX, UpdatedUpperBound(cutoff))
    ensures forall k :: k in ReachedKeys(db, cutoff) <==> k in keys && ParseUpdatedKey(k).Some?
  {
    hide LexLess, UpdatedUpperBound, ParseUpdatedKey;
    forall k ensures k in ReachedKeys(db, cutoff) <==> k in keys && ParseUpdatedKey(k).Some? {
      if ParseUpdatedKey(k).Some? { ScanReaches(db, cutoff, k); }
    }
  }

  /** What a purge interrupted by a refused commit leaves: a sound database, and an
      in-memory count that is right exactly when nothing had been removed yet. */
  lemma InterruptedPurge(s: State, cutoff: int64, gone: set<bytes>)
    requires Sound(s) && gone <= ReachedKeys(s.db, cutoff)
    ensures Consistent(PurgedKeys(s, gone).db)
    ensures |Calls(PurgedKeys(s, gone).db)| == s.count - |gone|
    ensures Sound(State(PurgedKeys(s, gone).db, s.count)) <==> gone == {}
  {
    hide Decode, Encoded, CallKey, UpdatedKey, ParseUpdatedKey, PurgedKeys;
    var cs := set k | k in gone && ParseUpdatedKey(k).Some? :: ParseUpdatedKey(k).value.1;
    SomeEntries(s.db, cutoff, gone, cs);
    PurgedKeysSound(s, gone, cs);
    PurgedCalls(s, gone, cs);
  }

  lemma SomeEntries(db: DB, cutoff: int64, gone: set<bytes>, cs: set<bytes>)
    requires Consistent(db) && gone <= ReachedKeys(db, cutoff)
    requires cs == set k | k in gone && ParseUpdatedKey(k).Some? :: ParseUpdatedKey(k).value.1
    ensures EntriesOf(db, gone, cs)
  {
    hide Decode, Encoded, CallKey, UpdatedKey, ParseUpdatedKey;
    forall c | c in cs
      ensures c != [] && Present(db, c) && Readable(db, c) && UpdatedKey(Value(db, c).updatedAt, c) in gone
    {
      var k :| k in gone && ParseUpdatedKey(k).Some? && ParseUpdatedKey(k).value.1 == c;
      EntryRow(db, k, ParseUpdatedKey(k).value.0, c);
    }
  }
}
