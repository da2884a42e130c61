/** The grid store's writer as a state machine over its ordered key space, and
    what every one of its runs keeps. */
module GridStore {
  import opened Common
  import opened Bytes
  import opened Pebble
  import opened GridRecord
  import opened GridKeys

  /** The database and the in-memory count beside it. */
  datatype State = State(db: DB, count: int)

  // ---------------------------------------------------------------- views

  predicate Present(db: DB, c: bytes) { CallKey(c) in db }

  /** getRecordValue would not fail on this call. */
  predicate Readable(db: DB, c: bytes) {
    Present(db, c) ==> Decode(db[CallKey(c)]).Ok?
  }

  function Value(db: DB, c: bytes): (v: RecordValue)
    requires Present(db, c) && Readable(db, c)
  {
    Decode(db[CallKey(c)]).value
  }

  function UpdatedAt(db: DB, c: bytes): (t: Option<int64>)
    requires Readable(db, c)
  {
    if Present(db, c) then Some(Value(db, c).updatedAt) else None
  }

  /** The stored calls: the keys an iterator over the record prefix parses. */
  function Calls(db: DB): (s: set<bytes>) {
    set k | k in db && ParseCallKey(k).Some? :: ParseCallKey(k).value
  }

  lemma CallsIff(db: DB, c: bytes)
    ensures c in Calls(db) <==> c != [] && Present(db, c)
  {
    ParseCallKeyIff(CallKey(c), c);
    if c in Calls(db) {
      var k :| k in db && ParseCallKey(k) == Some(c);
      ParseCallKeyIff(k, c);
    }
  }

  /** One call's index entries are exactly its record's instant. */
  ghost predicate RowOk(db: DB, c: bytes) {
    && Readable(db, c)
    && forall t: int64 :: UpdatedKey(t, c) in db <==> UpdatedAt(db, c) == Some(t)
  }

  /** Two databases agree on everything that concerns one call. */
  ghost predicate SameRow(a: DB, b: DB, c: bytes) {
    && (Present(a, c) <==> Present(b, c))
    && (Present(a, c) ==> a[CallKey(c)] == b[CallKey(c)])
    && forall t: int64 :: UpdatedKey(t, c) in a <==> UpdatedKey(t, c) in b
  }

  predicate KnownKey(k: bytes) {
    k == META_COUNT_KEY || ParseCallKey(k).Some? || ParseUpdatedKey(k).Some?
  }

  function EncodeCount(count: int): (s: bytes) {
    BE(count % TWO64, 8)
  }

  /** The durable state is sound: one index entry per record and none other, and
      the persisted count is the number of records. */
  ghost predicate Consistent(db: DB) {
    && (forall k :: k in db ==> KnownKey(k))
    && (forall c: bytes :: c != [] ==> RowOk(db, c))
    && META_COUNT_KEY in db && db[META_COUNT_KEY] == EncodeCount(|Calls(db)|)
  }

  /** The running store is sound: the in-memory count agrees as well. */
  ghost predicate Sound(s: State) {
    Consistent(s.db) && s.count == |Calls(s.db)|
  }

  const EMPTY := State(map[META_COUNT_KEY := EncodeCount(0)], 0)

  lemma EmptySound()
    ensures Sound(EMPTY)
  {
    forall c: bytes | c != [] ensures RowOk(EMPTY.db, c) {
      FamiliesDisjoint(0, c, c);
      forall t: int64 ensures UpdatedKey(t, c) !in EMPTY.db { FamiliesDisjoint(t, c, c); }
    }
    assert Calls(EMPTY.db) == {} by {
      forall c ensures c !in Calls(EMPTY.db) { CallsIff(EMPTY.db, c); FamiliesDisjoint(0, c, c); }
    }
  }

  // ---------------------------------------------------------------- upsert

  /** One record of a batch with its call and its value normalized. */
  datatype Incoming = Incoming(call: bytes, value: RecordValue)

  function Incomings(recs: seq<Record>, now: int64): (ins: seq<Incoming>)
    ensures |ins| == |recs|
  {
    seq(|recs|, i requires 0 <= i < |recs| =>
      Incoming(NormalizeCall(recs[i].call), NormalizeRecordValue(recs[i], now)))
  }

  function Merged(base: DB, c: bytes, inc: RecordValue): (m: RecordValue)
    requires Readable(base, c)
  {
    if Present(base, c) then Merge(Value(base, c), inc) else inc
  }

  /** A record write, an index deletion and an index insertion, in that order. */
  function Write(cur: DB, record: bytes, value: bytes, gone: Option<bytes>, entry: Option<bytes>): (r: DB) {
    var a := cur[record := value];
    var b := if gone.Some? then a - {gone.value} else a;
    if entry.Some? then b[entry.value := []] else b
  }

  lemma WriteOther(cur: DB, record: bytes, value: bytes, gone: Option<bytes>, entry: Option<bytes>, k: bytes)
    requires k != record && gone != Some(k) && entry != Some(k)
    ensures var r := Write(cur, record, value, gone, entry);
            (k in r <==> k in cur) && (k in cur ==> r[k] == cur[k])
  {
  }

  lemma WriteRecord(cur: DB, record: bytes, value: bytes, gone: Option<bytes>, entry: Option<bytes>)
    requires gone != Some(record) && entry != Some(record)
    ensures var r := Write(cur, record, value, gone, entry);
            record in r && r[record] == value
  {
  }

  lemma WriteKey(cur: DB, record: bytes, value: bytes, gone: Option<bytes>, entry: Option<bytes>, k: bytes)
    requires k != record
    ensures k in Write(cur, record, value, gone, entry) <==> entry == Some(k) || (k in cur && gone != Some(k))
  {
  }

  /** One record's writes on top of the batch so far; the existing value is read
      from the database, not from the batch. */
  function UpsertRow(cur: DB, base: DB, c: bytes, inc: RecordValue): (r: DB)
    requires Readable(base, c)
  {
    var m := Merged(base, c, inc);
    var u0 := UpdatedAt(base, c);
    var moved := u0 != Some(m.updatedAt);
    Write(cur, CallKey(c), Encoded(m),
          if u0.Some? && u0.value != 0 && moved then Some(UpdatedKey(u0.value, c)) else None,
          if moved then Some(UpdatedKey(m.updatedAt, c)) else None)
  }

  /** The keys an upsert of c may touch all carry c. */
  lemma UpsertRowFrame(cur: DB, base: DB, c: bytes, inc: RecordValue, k: bytes)
    requires Readable(base, c)
    requires k != CallKey(c) && forall t: int64 :: k != UpdatedKey(t, c)
    ensures var r := UpsertRow(cur, base, c, inc);
            (k in r <==> k in cur) && (k in cur ==> r[k] == cur[k])
  {
    var m := Merged(base, c, inc);
    var u0 := UpdatedAt(base, c);
    var moved := u0 != Some(m.updatedAt);
    WriteOther(cur, CallKey(c), Encoded(m),
               if u0.Some? && u0.value != 0 && moved then Some(UpdatedKey(u0.value, c)) else None,
               if moved then Some(UpdatedKey(m.updatedAt, c)) else None, k);
  }

  predicate AllReadable(base: DB, ins: seq<Incoming>) {
    forall i :: 0 <= i < |ins| ==> ins[i].call == [] || Readable(base, ins[i].call)
  }

  /** The batch contents after these records, as a database. */
  function BatchDb(base: DB, ins: seq<Incoming>): (r: DB)
    requires AllReadable(base, ins)
  {
    if ins == [] then base else
      var n := |ins| - 1;
      var cur := BatchDb(base, ins[..n]);
      var c := ins[n].call;
      if c == [] then cur else UpsertRow(cur, base, c, ins[n].value)
  }

  /** countDelta: occurrences whose call the database does not hold. */
  function CountDelta(base: DB, ins: seq<Incoming>): (d: nat) {
    if ins == [] then 0 else
      var n := |ins| - 1;
      var c := ins[n].call;
      CountDelta(base, ins[..n]) + (if c != [] && !Present(base, c) then 1 else 0)
  }

  /** applyUpsertBatch; a stored value that does not decode fails the batch. */
  function Upserted(s: State, ins: seq<Incoming>): (r: State) {
    if !AllReadable(s.db, ins) then s else
      var delta := CountDelta(s.db, ins);
      var db := BatchDb(s.db, ins);
      if delta == 0 then State(db, s.count)
      else
        var count := Max(s.count + delta, 0);
        State(db[META_COUNT_KEY := EncodeCount(count)], count)
  }

  /** The incoming values a batch holds for one call. */
  function Occurrences(ins: seq<Incoming>, c: bytes): (o: seq<RecordValue>) {
    if ins == [] then [] else
      var n := |ins| - 1;
      var rest := Occurrences(ins[..n], c);
      if ins[n].call == c then rest + [ins[n].value] else rest
  }

  /** The instants one call's index entries carry after a batch. */
  ghost predicate InIndex(u0: Option<int64>, occ: seq<RecordValue>, t: int64) {
    match u0
    case None => exists i :: 0 <= i < |occ| && occ[i].updatedAt == t
    case Some(u) =>
      || (exists i :: 0 <= i < |occ| && occ[i].updatedAt > u && occ[i].updatedAt == t)
      || (t == u && (u == 0 || forall i :: 0 <= i < |occ| ==> occ[i].updatedAt <= u))
  }

  lemma UpsertRowOther(cur: DB, base: DB, c: bytes, inc: RecordValue, d: bytes)
    requires Readable(base, c) && c != d
    ensures SameRow(UpsertRow(cur, base, c, inc), cur, d)
  {
    CallKeyInjective(c, d);
    forall t: int64 ensures CallKey(d) != UpdatedKey(t, c) { FamiliesDisjoint(t, d, c); }
    UpsertRowFrame(cur, base, c, inc, CallKey(d));
    forall t: int64 ensures UpdatedKey(t, d) in UpsertRow(cur, base, c, inc) <==> UpdatedKey(t, d) in cur {
      FamiliesDisjoint(t, c, d);
      forall u: int64 ensures UpdatedKey(t, d) != UpdatedKey(u, c) { UpdatedKeyInjective(t, d, u, c); }
      UpsertRowFrame(cur, base, c, inc, UpdatedKey(t, d));
    }
  }

  lemma UpsertRowMeta(cur: DB, base: DB, c: bytes, inc: RecordValue)
    requires Readable(base, c)
    ensures var r := UpsertRow(cur, base, c, inc);
            (META_COUNT_KEY in r <==> META_COUNT_KEY in cur)
            && (META_COUNT_KEY in cur ==> r[META_COUNT_KEY] == cur[META_COUNT_KEY])
  {
    forall t: int64 ensures CallKey(c) != META_COUNT_KEY && UpdatedKey(t, c) != META_COUNT_KEY {
      FamiliesDisjoint(t, c, c);
    }
    UpsertRowFrame(cur, base, c, inc, META_COUNT_KEY);
  }

  lemma UpsertRowKeys(cur: DB, base: DB, c: bytes, inc: RecordValue, k: bytes)
    requires Readable(base, c) && c != [] && k in UpsertRow(cur, base, c, inc)
    ensures k in cur || KnownKey(k)
  {
    ParseCallKeyIff(k, c);
    if t: int64 :| k == UpdatedKey(t, c) {
      ParseUpdatedKeyIff(k, t, c);
    } else if k != CallKey(c) {
      UpsertRowFrame(cur, base, c, inc, k);
    }
  }

  /** The entries one occurrence leaves. */
  lemma UpsertRowIndex(cur: DB, base: DB, c: bytes, inc: RecordValue, t: int64)
    requires Readable(base, c)
    ensures UpdatedKey(t, c) in UpsertRow(cur, base, c, inc) <==>
            match UpdatedAt(base, c)
            case None => t == inc.updatedAt || UpdatedKey(t, c) in cur
            case Some(u) =>
              if inc.updatedAt <= u then UpdatedKey(t, c) in cur
              else t == inc.updatedAt || (UpdatedKey(t, c) in cur && (u == 0 || t != u))
  {
    var u0 := UpdatedAt(base, c);
    var m := Merged(base, c, inc);
    assert m.updatedAt == if u0.Some? then Max(u0.value, inc.updatedAt) else inc.updatedAt;
    FamiliesDisjoint(t, c, c);
    UpdatedKeyInjective(t, c, m.updatedAt, c);
    if u0.Some? {
      UpdatedKeyInjective(t, c, u0.value, c);
    }
    WriteKey(cur, CallKey(c), Encoded(m),
             if u0.Some? && u0.value != 0 && u0 != Some(m.updatedAt) then Some(UpdatedKey(u0.value, c)) else None,
             if u0 != Some(m.updatedAt) then Some(UpdatedKey(m.updatedAt, c)) else None, UpdatedKey(t, c));
  }

  lemma UpsertRowValue(cur: DB, base: DB, c: bytes, inc: RecordValue)
    requires Readable(base, c)
    ensures var r := UpsertRow(cur, base, c, inc);
            CallKey(c) in r && r[CallKey(c)] == Encoded(Merged(base, c, inc))
  {
    var u0 := UpdatedAt(base, c);
    var m := Merged(base, c, inc);
    FamiliesDisjoint(m.updatedAt, c, c);
    if u0.Some? { FamiliesDisjoint(u0.value, c, c); }
    WriteRecord(cur, CallKey(c), Encoded(m),
                if u0.Some? && u0.value != 0 && u0 != Some(m.updatedAt) then Some(UpdatedKey(u0.value, c)) else None,
                if u0 != Some(m.updatedAt) then Some(UpdatedKey(m.updatedAt, c)) else None);
  }

  lemma InIndexSnoc(u0: Option<int64>, occ: seq<RecordValue>, o: RecordValue, t: int64)
    ensures occ == [] && u0.None? ==> !InIndex(u0, occ, t)
    ensures InIndex(u0, occ + [o], t) <==>
            match u0
            case None => t == o.updatedAt || InIndex(u0, occ, t)
            case Some(u) =>
              if o.updatedAt <= u then InIndex(u0, occ, t)
              else t == o.updatedAt || (InIndex(u0, occ, t) && (u == 0 || t != u))
  {
    var all := occ + [o];
    assert all[|occ|] == o;
    assert forall i :: 0 <= i < |occ| ==> all[i] == occ[i];
  }

  /** One call's row after a batch that held these occurrences of it. */
  ghost predicate RowAfter(base: DB, r: DB, c: bytes, occ: seq<RecordValue>)
    requires Readable(base, c)
  {
    if occ == [] then SameRow(r, base, c)
    else && CallKey(c) in r
         && r[CallKey(c)] == Encoded(Merged(base, c, occ[|occ| - 1]))
         && forall t: int64 :: UpdatedKey(t, c) in r <==> InIndex(UpdatedAt(base, c), occ, t)
  }

  /** What a whole batch, repeated calls included, does to one call. */
  lemma {:induction false} BatchRow(base: DB, ins: seq<Incoming>, c: bytes)
    requires AllReadable(base, ins) && c != [] && RowOk(base, c)
    ensures RowAfter(base, BatchDb(base, ins), c, Occurrences(ins, c))
  {
    if ins != [] {
      var n := |ins| - 1;
      BatchRow(base, ins[..n], c);
      var cur := BatchDb(base, ins[..n]);
      var d := ins[n].call;
      assert d == [] || Readable(base, d);
      if d == c {
        BatchRowSame(base, cur, c, Occurrences(ins[..n], c), ins[n].value);
      } else if d != [] {
        UpsertRowOther(cur, base, d, ins[n].value, c);
        RowAfterSame(base, cur, BatchDb(base, ins), c, Occurrences(ins, c));
      }
    }
  }

  lemma RowAfterSame(base: DB, cur: DB, r: DB, c: bytes, occ: seq<RecordValue>)
    requires Readable(base, c) && RowAfter(base, cur, c, occ) && SameRow(r, cur, c)
    ensures RowAfter(base, r, c, occ)
  {
  }

  lemma BatchRowSame(base: DB, cur: DB, c: bytes, occ: seq<RecordValue>, inc: RecordValue)
    requires RowOk(base, c) && RowAfter(base, cur, c, occ)
    ensures RowAfter(base, UpsertRow(cur, base, c, inc), c, occ + [inc])
  {
    UpsertRowValue(cur, base, c, inc);
    forall t: int64
      ensures UpdatedKey(t, c) in UpsertRow(cur, base, c, inc)
              <==> InIndex(UpdatedAt(base, c), occ + [inc], t)
    {
      UpsertRowIndex(cur, base, c, inc, t);
      InIndexSnoc(UpdatedAt(base, c), occ, inc, t);
      assert UpdatedKey(t, c) in cur <==> InIndex(UpdatedAt(base, c), occ, t);
    }
  }

  /** What a batch leaves alone. */
  lemma {:induction false} BatchKeys(base: DB, ins: seq<Incoming>)
    requires AllReadable(base, ins)
    ensures var r := BatchDb(base, ins);
            (META_COUNT_KEY in r <==> META_COUNT_KEY in base)
            && (META_COUNT_KEY in base ==> r[META_COUNT_KEY] == base[META_COUNT_KEY])
    ensures forall k :: k in BatchDb(base, ins) ==> k in base || KnownKey(k)
  {
    if ins != [] {
      var n := |ins| - 1;
      BatchKeys(base, ins[..n]);
      var d := ins[n].call;
      assert d == [] || Readable(base, d);
      if d != [] {
        var cur, inc := BatchDb(base, ins[..n]), ins[n].value;
        UpsertRowMeta(cur, base, d, inc);
        forall k | k in UpsertRow(cur, base, d, inc) ensures k in base || KnownKey(k) {
          UpsertRowKeys(cur, base, d, inc, k);
        }
      }
    }
  }

  // The exact condition on a batch.

  /** A call already stored keeps an exact entry when every occurrence that moves
      its instant forward moves it to the last occurrence's, and the stored
      instant is not the Unix epoch itself. */
  predicate SafeRow(u: int64, occ: seq<RecordValue>) {
    forall i :: 0 <= i < |occ| && occ[i].updatedAt > u ==>
      u != 0 && occ[i].updatedAt == occ[|occ| - 1].updatedAt
  }

  predicate RepeatsNew(base: DB, ins: seq<Incoming>, i: int, j: int)
    requires 0 <= i < j < |ins|
  {
    var c := ins[i].call;
    c != [] && c == ins[j].call && !Present(base, c)
  }

  predicate NoNewRepeats(base: DB, ins: seq<Incoming>) {
    forall i, j :: 0 <= i < j < |ins| ==> !RepeatsNew(base, ins, i, j)
  }

  /** The batches that keep the store sound: no unstored call occurs twice, and
      every stored call's occurrences are safe. */
  predicate BatchSafe(base: DB, ins: seq<Incoming>)
    requires AllReadable(base, ins)
  {
    && NoNewRepeats(base, ins)
    && forall i :: 0 <= i < |ins| ==>
         var c := ins[i].call;
         c != [] && Present(base, c) ==> SafeRow(Value(base, c).updatedAt, Occurrences(ins, c))
  }

  lemma {:induction false} OccurrencesIff(ins: seq<Incoming>, c: bytes)
    ensures Occurrences(ins, c) != [] <==>
            exists i :: 0 <= i < |ins| && ins[i].call == c
  {
    if ins != [] {
      var n := |ins| - 1;
      OccurrencesIff(ins[..n], c);
      if Occurrences(ins[..n], c) != [] {
        var i :| 0 <= i < n && ins[..n][i].call == c;
        assert ins[i] == ins[..n][i];
      }
      if i :| 0 <= i < |ins| && ins[i].call == c && i != n {
        assert ins[..n][i] == ins[i];
      }
    }
  }

  /** An unstored call that is not repeated occurs at most once. */
  lemma {:induction false} OccurrencesOnce(base: DB, ins: seq<Incoming>, c: bytes)
    requires NoNewRepeats(base, ins) && c != [] && !Present(base, c)
    ensures |Occurrences(ins, c)| <= 1
  {
    if ins != [] {
      var n := |ins| - 1;
      RepeatsPrefix(base, ins, n);
      OccurrencesOnce(base, ins[..n], c);
      if ins[n].call == c {
        OccurrencesIff(ins[..n], c);
        if i :| 0 <= i < n && ins[..n][i].call == c {
          assert RepeatsNew(base, ins, i, n);
        }
      }
    }
  }

  /** A stored call's row is exact after the batch exactly when it was safe. */
  lemma SafeRowIff(u: int64, occ: seq<RecordValue>)
    requires occ != []
    ensures SafeRow(u, occ) <==>
            forall t: int64 :: InIndex(Some(u), occ, t) <==> t == Max(u, occ[|occ| - 1].updatedAt)
  {
    var last := occ[|occ| - 1].updatedAt;
    if SafeRow(u, occ) {
      forall t: int64 ensures InIndex(Some(u), occ, t) <==> t == Max(u, last) {
        if last > u { assert occ[|occ| - 1].updatedAt > u; }
      }
    }
    if forall t: int64 :: InIndex(Some(u), occ, t) <==> t == Max(u, last) {
      forall i | 0 <= i < |occ| && occ[i].updatedAt > u
        ensures u != 0 && occ[i].updatedAt == last
      {
        assert InIndex(Some(u), occ, occ[i].updatedAt);
        if u == 0 { assert InIndex(Some(u), occ, u); }
      }
    }
  }

  lemma SameRowOk(a: DB, b: DB, c: bytes)
    requires SameRow(a, b, c)
    ensures RowOk(a, c) <==> RowOk(b, c)
  {
    assert Readable(a, c) <==> Readable(b, c);
    if Readable(a, c) { assert UpdatedAt(a, c) == UpdatedAt(b, c); }
  }

  lemma MetaRow(db: DB, x: bytes, c: bytes)
    ensures SameRow(db[META_COUNT_KEY := x], db, c)
  {
    FamiliesDisjoint(0, c, c);
    forall t: int64 ensures UpdatedKey(t, c) != META_COUNT_KEY { FamiliesDisjoint(t, c, c); }
  }

  lemma MetaCalls(db: DB, x: bytes)
    ensures Calls(db[META_COUNT_KEY := x]) == Calls(db)
  {
    forall c ensures c in Calls(db[META_COUNT_KEY := x]) <==> c in Calls(db) {
      CallsIff(db, c);
      CallsIff(db[META_COUNT_KEY := x], c);
      MetaRow(db, x, c);
    }
  }

  lemma StoredInstantKept(v: RecordValue)
    ensures Stored(v).updatedAt == v.updatedAt
  {
  }

  /** A written row reads back the merged instant. */
  lemma RowAfterOk(base: DB, r: DB, c: bytes, occ: seq<RecordValue>)
    requires RowOk(base, c) && RowAfter(base, r, c, occ) && occ != []
    ensures Readable(r, c) && Present(r, c)
    ensures Value(r, c) == Stored(Merged(base, c, occ[|occ| - 1]))
    ensures RowOk(r, c) <==>
            forall t: int64 ::
              InIndex(UpdatedAt(base, c), occ, t) <==> t == Merged(base, c, occ[|occ| - 1]).updatedAt
  {
    hide InIndex, Encoded, Decode, Merge;
    var m := Merged(base, c, occ[|occ| - 1]);
    DecodeEncoded(m);
    StoredInstantKept(m);
    hide Stored;
    assert UpdatedAt(r, c) == Some(m.updatedAt);
    if RowOk(r, c) {
      forall t: int64 ensures InIndex(UpdatedAt(base, c), occ, t) <==> t == m.updatedAt {
        assert UpdatedKey(t, c) in r <==> UpdatedAt(r, c) == Some(t);
      }
    }
  }

  /** A stored call's row survives the batch exactly when its occurrences are safe. */
  lemma StoredRowIff(base: DB, r: DB, c: bytes, occ: seq<RecordValue>)
    requires RowOk(base, c) && Present(base, c) && RowAfter(base, r, c, occ)
    ensures RowOk(r, c) <==> SafeRow(Value(base, c).updatedAt, occ)
  {
    if occ == [] {
      SameRowOk(r, base, c);
    } else {
      RowAfterOk(base, r, c, occ);
      SafeRowIff(Value(base, c).updatedAt, occ);
    }
  }

  lemma InIndexOnce(occ: seq<RecordValue>)
    requires |occ| == 1
    ensures forall t: int64 :: InIndex(None, occ, t) <==> t == occ[0].updatedAt
  {
    forall t: int64 ensures InIndex(None, occ, t) <==> t == occ[0].updatedAt {
      InIndexSnoc(None, [], occ[0], t);
      assert [] + [occ[0]] == occ;
    }
  }

  /** A new call's row is exact when it occurs once. */
  lemma NewRow(base: DB, r: DB, c: bytes, occ: seq<RecordValue>)
    requires RowOk(base, c) && !Present(base, c) && RowAfter(base, r, c, occ) && |occ| <= 1
    ensures RowOk(r, c)
  {
    if occ == [] {
      SameRowOk(r, base, c);
    } else {
      RowAfterOk(base, r, c, occ);
      InIndexOnce(occ);
    }
  }

  // Counting.

  function NewCalls(base: DB, ins: seq<Incoming>): (s: set<bytes>) {
    if ins == [] then {} else
      var n := |ins| - 1;
      var c := ins[n].call;
      NewCalls(base, ins[..n]) + (if c != [] && !Present(base, c) then {c} else {})
  }

  lemma {:induction false} NewCallsIff(base: DB, ins: seq<Incoming>, c: bytes)
    ensures c in NewCalls(base, ins) <==>
            c != [] && !Present(base, c) && exists i :: 0 <= i < |ins| && ins[i].call == c
  {
    if ins != [] {
      var n := |ins| - 1;
      NewCallsIff(base, ins[..n], c);
      if i :| 0 <= i < n && ins[..n][i].call == c {
        assert ins[i] == ins[..n][i];
      }
      if i :| 0 <= i < |ins| && ins[i].call == c && i != n {
        assert ins[..n][i] == ins[i];
      }
    }
  }

  lemma RepeatsLast(base: DB, ins: seq<Incoming>)
    requires ins != []
    ensures var n := |ins| - 1;
            ins[n].call in NewCalls(base, ins[..n]) <==>
            exists i :: 0 <= i < n && RepeatsNew(base, ins, i, n)
  {
    var n := |ins| - 1;
    var t := ins[..n];
    var c := ins[n].call;
    NewCallsIff(base, t, c);
    if c in NewCalls(base, t) {
      var i :| 0 <= i < |t| && t[i].call == c;
      assert t[i] == ins[i];
      assert RepeatsNew(base, ins, i, n);
    }
    if i :| 0 <= i < n && RepeatsNew(base, ins, i, n) {
      assert t[i] == ins[i];
    }
  }

  lemma NoNewRepeatsSnoc(base: DB, ins: seq<Incoming>)
    requires ins != []
    ensures var n := |ins| - 1;
            NoNewRepeats(base, ins) <==>
            NoNewRepeats(base, ins[..n]) && ins[n].call !in NewCalls(base, ins[..n])
  {
    var n := |ins| - 1;
    RepeatsLast(base, ins);
    RepeatsPrefix(base, ins, n);
  }

  lemma RepeatsPrefix(base: DB, ins: seq<Incoming>, n: nat)
    requires n <= |ins|
    ensures forall i, j :: 0 <= i < j < n ==> (RepeatsNew(base, ins[..n], i, j) <==> RepeatsNew(base, ins, i, j))
  {
  }

  /** The delta counts the new calls exactly when none of them is repeated. */
  lemma {:induction false} CountDeltaExact(base: DB, ins: seq<Incoming>)
    ensures CountDelta(base, ins) >= |NewCalls(base, ins)|
    ensures CountDelta(base, ins) == |NewCalls(base, ins)| <==> NoNewRepeats(base, ins)
  {
    if ins != [] {
      CountDeltaExact(base, ins[..|ins| - 1]);
      NoNewRepeatsSnoc(base, ins);
      NewCallsIff(base, ins[..|ins| - 1], ins[|ins| - 1].call);
    }
  }

  lemma BatchPresent(base: DB, ins: seq<Incoming>, c: bytes)
    requires AllReadable(base, ins) && c != [] && RowOk(base, c)
    ensures Present(BatchDb(base, ins), c) <==>
            Present(base, c) || exists i :: 0 <= i < |ins| && ins[i].call == c
  {
    BatchRow(base, ins, c);
    OccurrencesIff(ins, c);
  }

  lemma BatchCalls(base: DB, ins: seq<Incoming>)
    requires Consistent(base) && AllReadable(base, ins)
    ensures Calls(BatchDb(base, ins)) == Calls(base) + NewCalls(base, ins)
    ensures Calls(base) !! NewCalls(base, ins)
  {
    var r := BatchDb(base, ins);
    forall c ensures c in Calls(r) <==> c in Calls(base) + NewCalls(base, ins) {
      CallsIff(r, c);
      CallsIff(base, c);
      NewCallsIff(base, ins, c);
      if c != [] { BatchPresent(base, ins, c); }
    }
    forall c | c in Calls(base) ensures c !in NewCalls(base, ins) {
      CallsIff(base, c);
      NewCallsIff(base, ins, c);
    }
  }

  lemma ConsistentReadable(db: DB, ins: seq<Incoming>)
    requires Consistent(db)
    ensures AllReadable(db, ins)
  {
    forall i | 0 <= i < |ins| ensures ins[i].call == [] || Readable(db, ins[i].call) {
      var c := ins[i].call;
      if c != [] { assert RowOk(db, c); }
    }
  }

  lemma UpsertedRow(s: State, ins: seq<Incoming>, c: bytes)
    requires Sound(s) && c != []
    ensures AllReadable(s.db, ins) && RowOk(s.db, c)
    ensures RowAfter(s.db, Upserted(s, ins).db, c, Occurrences(ins, c))
  {
    ConsistentReadable(s.db, ins);
    BatchRow(s.db, ins, c);
    var r := BatchDb(s.db, ins);
    var x := EncodeCount(Max(s.count + CountDelta(s.db, ins), 0));
    MetaRow(r, x, c);
    RowAfterSame(s.db, r, r[META_COUNT_KEY := x], c, Occurrences(ins, c));
  }

  lemma UpsertCalls(s: State, ins: seq<Incoming>)
    requires Sound(s)
    ensures AllReadable(s.db, ins)
    ensures Calls(Upserted(s, ins).db) == Calls(s.db) + NewCalls(s.db, ins)
    ensures |Calls(Upserted(s, ins).db)| == s.count + |NewCalls(s.db, ins)|
    ensures Upserted(s, ins).count == s.count + CountDelta(s.db, ins)
  {
    ConsistentReadable(s.db, ins);
    BatchCalls(s.db, ins);
    MetaCalls(BatchDb(s.db, ins), EncodeCount(Max(s.count + CountDelta(s.db, ins), 0)));
  }

  /** The key families and the persisted count after any batch. */
  lemma UpsertMeta(s: State, ins: seq<Incoming>)
    requires Sound(s)
    ensures var r := Upserted(s, ins);
            && (forall k :: k in r.db ==> KnownKey(k))
            && META_COUNT_KEY in r.db && r.db[META_COUNT_KEY] == EncodeCount(r.count)
  {
    ConsistentReadable(s.db, ins);
    BatchKeys(s.db, ins);
  }

  /** Main step result: on a sound store a batch leaves the store sound exactly
      when it is safe. */
  lemma UpsertSoundIff(s: State, ins: seq<Incoming>)
    requires Sound(s)
    ensures AllReadable(s.db, ins)
    ensures Sound(Upserted(s, ins)) <==> BatchSafe(s.db, ins)
  {
    ConsistentReadable(s.db, ins);
    var r := Upserted(s, ins);
    UpsertCalls(s, ins);
    UpsertMeta(s, ins);
    CountDeltaExact(s.db, ins);
    if BatchSafe(s.db, ins) {
      forall c: bytes | c != [] ensures RowOk(r.db, c) { SafeRowKept(s, ins, c); }
    }
    if Sound(r) {
      forall i | 0 <= i < |ins|
        ensures var c := ins[i].call;
                c != [] && Present(s.db, c) ==> SafeRow(Value(s.db, c).updatedAt, Occurrences(ins, c))
      {
        var c := ins[i].call;
        if c != [] && Present(s.db, c) {
          UpsertedRow(s, ins, c);
          StoredRowIff(s.db, r.db, c, Occurrences(ins, c));
          assert RowOk(r.db, c);
        }
      }
    }
  }

  lemma SafeRowKept(s: State, ins: seq<Incoming>, c: bytes)
    requires Sound(s) && AllReadable(s.db, ins) && BatchSafe(s.db, ins) && c != []
    ensures RowOk(Upserted(s, ins).db, c)
  {
    var r := Upserted(s, ins).db;
    var occ := Occurrences(ins, c);
    UpsertedRow(s, ins, c);
    assert RowOk(s.db, c);
    if Present(s.db, c) {
      if occ != [] {
        OccurrencesIff(ins, c);
        var i :| 0 <= i < |ins| && ins[i].call == c;
        assert SafeRow(Value(s.db, c).updatedAt, occ);
      }
      StoredRowIff(s.db, r, c, occ);
    } else {
      OccurrencesOnce(s.db, ins, c);
      NewRow(s.db, r, c, occ);
    }
  }

  // ---------------------------------------------------------------- purge

  predicate ReachedKey(k: bytes, cutoff: int64) {
    match ParseUpdatedKey(k)
    case Some((t, _)) => Reached(t, cutoff)
    case None => false
  }

  /** The index keys a purge deletes. */
  function ReachedKeys(db: DB, cutoff: int64): (s: set<bytes>) {
    set k | k in db && ReachedKey(k, cutoff)
  }

  /** The record keys it deletes beside them. */
  function RecordKeys(ks: set<bytes>): (s: set<bytes>) {
    set k | k in ks && ParseUpdatedKey(k).Some? :: CallKey(ParseUpdatedKey(k).value.1)
  }

  /** A purge cutoff that does anything: set, and after the Unix epoch. */
  predicate Effective(cutoff: Option<int64>) {
    cutoff.Some? && cutoff.value > 0
  }

  /** applyPurgeOlderThan when every commit succeeds. */
  function Purged(s: State, cutoff: Option<int64>): (r: State) {
    if !Effective(cutoff) then s else
      var ks := ReachedKeys(s.db, cutoff.value);
      PurgedKeys(s, ks)
  }

  function PurgedKeys(s: State, ks: set<bytes>): (r: State) {
    if ks == {} then State(s.db, s.count) else
      var count := Max(s.count - |ks|, 0);
      State((s.db - (ks + RecordKeys(ks)))[META_COUNT_KEY := EncodeCount(count)], count)
  }

  predicate Expired(db: DB, c: bytes, cutoff: Option<int64>)
    requires Readable(db, c)
  {
    Effective(cutoff) && Present(db, c) && Reached(Value(db, c).updatedAt, cutoff.value)
  }

  /** A subset of the index entries of a sound store, and the calls they belong to. */
  ghost predicate EntriesOf(db: DB, ks: set<bytes>, cs: set<bytes>) {
    && (forall k {:trigger ParseUpdatedKey(k)} ::
          k in ks ==> k in db && ParseUpdatedKey(k).Some? && ParseUpdatedKey(k).value.1 in cs)
    && (forall c :: c in cs ==> c != [] && Present(db, c) && Readable(db, c)
                                && UpdatedKey(Value(db, c).updatedAt, c) in ks)
  }

  lemma {:induction false} EntriesOfCard(db: DB, ks: set<bytes>, cs: set<bytes>)
    requires Consistent(db) && EntriesOf(db, ks, cs)
    ensures |ks| == |cs|
    decreases |cs|
  {
    if cs == {} {
      assert ks == {} by {
        forall k ensures k !in ks { var p := ParseUpdatedKey(k); }
      }
    } else {
      var c :| c in cs;
      var k := UpdatedKey(Value(db, c).updatedAt, c);
      EntriesWithout(db, ks, cs, c);
      EntriesOfCard(db, ks - {k}, cs - {c});
    }
  }

  lemma EntriesWithout(db: DB, ks: set<bytes>, cs: set<bytes>, c: bytes)
    requires Consistent(db) && EntriesOf(db, ks, cs) && c in cs
    ensures EntriesOf(db, ks - {UpdatedKey(Value(db, c).updatedAt, c)}, cs - {c})
  {
    var k := UpdatedKey(Value(db, c).updatedAt, c);
    forall j | j in ks - {k} ensures ParseUpdatedKey(j).value.1 in cs - {c} {
      var (t, d) := ParseUpdatedKey(j).value;
      EntryRow(db, j, t, d);
    }
    forall d | d in cs - {c} ensures UpdatedKey(Value(db, d).updatedAt, d) in ks - {k} {
      UpdatedKeyInjective(Value(db, d).updatedAt, d, Value(db, c).updatedAt, c);
    }
  }

  lemma RecordKeysIff(db: DB, ks: set<bytes>, cs: set<bytes>, c: bytes)
    requires EntriesOf(db, ks, cs)
    ensures CallKey(c) in RecordKeys(ks) <==> c in cs
  {
    if c in cs {
      var t := Value(db, c).updatedAt;
      ParseUpdatedKeyIff(UpdatedKey(t, c), t, c);
    }
    if CallKey(c) in RecordKeys(ks) {
      var k :| k in ks && ParseUpdatedKey(k).Some? && CallKey(ParseUpdatedKey(k).value.1) == CallKey(c);
      CallKeyInjective(ParseUpdatedKey(k).value.1, c);
    }
  }

  lemma NotRecordKey(ks: set<bytes>, k: bytes)
    requires k == [] || k[0] != 0x63
    ensures k !in RecordKeys(ks)
  {
  }

  lemma NotEntry(db: DB, ks: set<bytes>, cs: set<bytes>, k: bytes)
    requires Consistent(db) && EntriesOf(db, ks, cs) && (k == [] || k[0] != 0x75)
    ensures k !in ks
  {
    if k in ks {
      var (t, c) := ParseUpdatedKey(k).value;
      EntryRow(db, k, t, c);
    }
  }

  /** In a sound store an index key names a stored call and its instant. */
  lemma EntryRow(db: DB, k: bytes, t: int64, c: bytes)
    requires Consistent(db) && k in db && ParseUpdatedKey(k) == Some((t, c))
    ensures c != [] && k == UpdatedKey(t, c) && Present(db, c) && Readable(db, c) && Value(db, c).updatedAt == t
  {
    ParseUpdatedKeyIff(k, t, c);
    assert RowOk(db, c);
    assert UpdatedKey(t, c) in db;
  }

  /** Membership after deleting entries and records; the count key apart. */
  lemma PurgedKey(s: State, ks: set<bytes>, k: bytes)
    requires k != META_COUNT_KEY
    ensures var r := PurgedKeys(s, ks).db;
            && (k in r <==> k in s.db && k !in ks && k !in RecordKeys(ks))
            && (k in r ==> r[k] == s.db[k])
  {
    assert ks == {} ==> RecordKeys(ks) == {};
  }

  lemma PurgedEntry(s: State, ks: set<bytes>, cs: set<bytes>, c: bytes, t: int64)
    requires Consistent(s.db) && EntriesOf(s.db, ks, cs) && c != []
    ensures UpdatedKey(t, c) in PurgedKeys(s, ks).db <==> UpdatedKey(t, c) in s.db && c !in cs
  {
    var k := UpdatedKey(t, c);
    ParseUpdatedKeyIff(k, t, c);
    FamiliesDisjoint(t, c, c);
    NotRecordKey(ks, k);
    PurgedKey(s, ks, k);
    if k in s.db {
      EntryRow(s.db, k, t, c);
      assert k in ks <==> c in cs;
    }
  }

  lemma PurgedRecord(s: State, ks: set<bytes>, cs: set<bytes>, c: bytes)
    requires Consistent(s.db) && EntriesOf(s.db, ks, cs)
    ensures var r := PurgedKeys(s, ks).db;
            && (Present(r, c) <==> Present(s.db, c) && c !in cs)
            && (Present(r, c) ==> r[CallKey(c)] == s.db[CallKey(c)])
  {
    RecordKeysIff(s.db, ks, cs, c);
    NotEntry(s.db, ks, cs, CallKey(c));
    FamiliesDisjoint(0, c, c);
    PurgedKey(s, ks, CallKey(c));
  }

  /** Rows after deleting the entries and records of cs. */
  lemma PurgedRow(s: State, ks: set<bytes>, cs: set<bytes>, c: bytes)
    requires Consistent(s.db) && EntriesOf(s.db, ks, cs) && c != []
    ensures c in cs ==> !Present(PurgedKeys(s, ks).db, c)
    ensures c !in cs ==> SameRow(PurgedKeys(s, ks).db, s.db, c)
    ensures RowOk(PurgedKeys(s, ks).db, c)
  {
    var r := PurgedKeys(s, ks).db;
    assert RowOk(s.db, c);
    PurgedRecord(s, ks, cs, c);
    forall t: int64 ensures UpdatedKey(t, c) in r <==> UpdatedKey(t, c) in s.db && c !in cs {
      PurgedEntry(s, ks, cs, c, t);
    }
    if c !in cs { SameRowOk(r, s.db, c); }
  }

  lemma PurgedCalls(s: State, ks: set<bytes>, cs: set<bytes>)
    requires Consistent(s.db) && EntriesOf(s.db, ks, cs)
    ensures Calls(PurgedKeys(s, ks).db) == Calls(s.db) - cs
    ensures |Calls(PurgedKeys(s, ks).db)| == |Calls(s.db)| - |ks|
  {
    forall c ensures c in Calls(PurgedKeys(s, ks).db) <==> c in Calls(s.db) - cs {
      CallsIff(s.db, c);
      CallsIff(PurgedKeys(s, ks).db, c);
      PurgedRecord(s, ks, cs, c);
    }
    forall c | c in cs ensures c in Calls(s.db) { CallsIff(s.db, c); }
    EntriesOfCard(s.db, ks, cs);
  }

  /** Deleting any set of entries with their records, as each purge chunk does,
      keeps the store sound. */
  lemma PurgedKeysSound(s: State, ks: set<bytes>, cs: set<bytes>)
    requires Sound(s) && EntriesOf(s.db, ks, cs)
    ensures Sound(PurgedKeys(s, ks))
  {
    PurgedCalls(s, ks, cs);
    PurgedMeta(s, ks);
    forall c: bytes | c != [] ensures RowOk(PurgedKeys(s, ks).db, c) { PurgedRow(s, ks, cs, c); }
  }

  lemma PurgedMeta(s: State, ks: set<bytes>)
    requires Sound(s)
    ensures var r := PurgedKeys(s, ks);
            && (forall k :: k in r.db ==> KnownKey(k))
            && META_COUNT_KEY in r.db && r.db[META_COUNT_KEY] == EncodeCount(r.count)
            && r.count == Max(s.count - |ks|, 0)
  {
  }

  function ExpiredCalls(db: DB, cutoff: int64): (cs: set<bytes>) {
    set c | c in Calls(db) && Decode(db[CallKeyIn(db, c)]).Ok?
            && Reached(Decode(db[CallKeyIn(db, c)]).value.updatedAt, cutoff)
  }

  function CallKeyIn(db: DB, c: bytes): (k: bytes)
    requires c in Calls(db)
    ensures k == CallKey(c) && k in db
  {
    CallsIff(db, c);
    CallKey(c)
  }

  lemma ReachedEntries(db: DB, cutoff: int64)
    requires Consistent(db)
    ensures EntriesOf(db, ReachedKeys(db, cutoff), ExpiredCalls(db, cutoff))
  {
    var ks, cs := ReachedKeys(db, cutoff), ExpiredCalls(db, cutoff);
    forall k | k in ks ensures ParseUpdatedKey(k).Some? && ParseUpdatedKey(k).value.1 in cs {
      var (t, c) := ParseUpdatedKey(k).value;
      EntryRow(db, k, t, c);
      CallsIff(db, c);
    }
    forall c | c in cs
      ensures c != [] && Present(db, c) && Readable(db, c) && UpdatedKey(Value(db, c).updatedAt, c) in ks
    {
      CallsIff(db, c);
      assert RowOk(db, c);
      var t := Value(db, c).updatedAt;
      assert UpdatedKey(t, c) in db;
      ParseUpdatedKeyIff(UpdatedKey(t, c), t, c);
    }
  }

  /** Main purge result: a purge removes exactly the records its cutoff reaches,
      keeps every other record with its index entry, and stays sound. */
  lemma PurgeExact(s: State, cutoff: Option<int64>, c: bytes)
    requires Sound(s) && c != []
    ensures Sound(Purged(s, cutoff)) && RowOk(s.db, c)
    ensures if Expired(s.db, c, cutoff) then !Present(Purged(s, cutoff).db, c)
            else SameRow(Purged(s, cutoff).db, s.db, c)
  {
    assert RowOk(s.db, c);
    if Effective(cutoff) {
      var ks, cs := ReachedKeys(s.db, cutoff.value), ExpiredCalls(s.db, cutoff.value);
      ReachedEntries(s.db, cutoff.value);
      PurgedKeysSound(s, ks, cs);
      PurgedRow(s, ks, cs, c);
      CallsIff(s.db, c);
    }
  }

  /** On a store of positive instants a purge removes exactly the records updated at or before
      its cutoff. */
  lemma PurgePositive(s: State, cutoff: int64, c: bytes)
    requires Sound(s) && cutoff > 0 && c != []
    requires Present(s.db, c) ==> Readable(s.db, c) && Value(s.db, c).updatedAt > 0
    ensures Readable(s.db, c)
    ensures Present(Purged(s, Some(cutoff)).db, c) <==> Present(s.db, c) && Value(s.db, c).updatedAt > cutoff
  {
    hide Purged, Sound, Decode;
    PurgeExact(s, Some(cutoff), c);
  }

  /** A record from before 1970 outlives every purge but the one with the greatest cutoff. */
  lemma OldRecordSurvives(s: State, cutoff: int64, c: bytes)
    requires Sound(s) && 0 < cutoff < MAX_INT64 && c != []
    requires Present(s.db, c) && Readable(s.db, c) && Value(s.db, c).updatedAt < 0
    ensures SameRow(Purged(s, Some(cutoff)).db, s.db, c)
  {
    hide Purged, Sound, Decode;
    PurgeExact(s, Some(cutoff), c);
  }

  /** The number of keys deleted is the number of records removed. */
  lemma PurgeRemoved(s: State, cutoff: int64)
    requires Sound(s) && cutoff > 0
    ensures |ReachedKeys(s.db, cutoff)| == |ExpiredCalls(s.db, cutoff)|
    ensures Purged(s, Some(cutoff)).count == s.count - |ExpiredCalls(s.db, cutoff)|
  {
    ReachedEntries(s.db, cutoff);
    RemovedCount(s, ReachedKeys(s.db, cutoff), ExpiredCalls(s.db, cutoff));
  }

  lemma RemovedCount(s: State, ks: set<bytes>, cs: set<bytes>)
    requires Sound(s) && EntriesOf(s.db, ks, cs)
    ensures |ks| == |cs| && PurgedKeys(s, ks).count == s.count - |cs|
  {
    EntriesOfCard(s.db, ks, cs);
    PurgedCalls(s, ks, cs);
  }

  // ---------------------------------------------------------------- clear known

  predicate KnownRow(db: DB, k: bytes)
    requires k in db
  {
    ParseCallKey(k).Some? && Decode(db[k]).Ok? && Decode(db[k]).value.isKnown
  }

  function Unknown(raw: bytes): (r: bytes)
    requires Decode(raw).Ok?
  {
    Encoded(Decode(raw).value.(isKnown := false))
  }

  /** applyClearKnownFlags when every value decodes and every commit succeeds. */
  function Cleared(s: State): (r: State) {
    State(map k | k in s.db :: if KnownRow(s.db, k) then Unknown(s.db[k]) else s.db[k], s.count)
  }

  /** Some record rows re-encoded without their flag, everything else untouched. */
  ghost predicate Unflagged(db: DB, r: DB) {
    && r.Keys == db.Keys
    && forall k :: k in db ==> r[k] == db[k] || (KnownRow(db, k) && r[k] == Unknown(db[k]))
  }

  lemma UnknownDecodes(raw: bytes)
    requires Decode(raw).Ok?
    ensures Decode(Unknown(raw)) == Ok(Decode(raw).value.(isKnown := false))
  {
    DecodedIsCanonical(raw);
    RoundTrip(Decode(raw).value.(isKnown := false));
  }

  lemma UnflaggedRow(db: DB, r: DB, c: bytes)
    requires Unflagged(db, r) && c != [] && RowOk(db, c)
    ensures RowOk(r, c) && (Present(r, c) <==> Present(db, c))
    ensures Present(db, c) ==>
              Value(r, c) == Value(db, c) || Value(r, c) == Value(db, c).(isKnown := false)
  {
    if Present(db, c) {
      UnknownDecodes(db[CallKey(c)]);
    }
    assert UpdatedAt(r, c) == UpdatedAt(db, c);
    forall t: int64 ensures UpdatedKey(t, c) in r <==> UpdatedAt(r, c) == Some(t) {
      assert UpdatedKey(t, c) in r <==> UpdatedKey(t, c) in db;
    }
  }

  /** Clearing flags, wholly or in part, never disturbs index or counts. */
  lemma UnflaggedConsistent(db: DB, r: DB)
    requires Consistent(db) && Unflagged(db, r)
    ensures Consistent(r) && Calls(r) == Calls(db)
  {
    forall c: bytes | c != [] ensures RowOk(r, c) {
      assert RowOk(db, c);
      UnflaggedRow(db, r, c);
    }
    forall c ensures c in Calls(r) <==> c in Calls(db) { CallsIff(r, c); CallsIff(db, c); }
    FamiliesDisjoint(0, [], []);
    assert !KnownRow(db, META_COUNT_KEY);
  }

  lemma ClearedExact(s: State, c: bytes)
    requires Sound(s) && c != []
    ensures Sound(Cleared(s)) && RowOk(s.db, c) && RowOk(Cleared(s).db, c)
    ensures Present(Cleared(s).db, c) <==> Present(s.db, c)
    ensures Present(s.db, c) ==> Value(Cleared(s).db, c) == Value(s.db, c).(isKnown := false)
  {
    var r := Cleared(s).db;
    assert RowOk(s.db, c);
    UnflaggedConsistent(s.db, r);
    if Present(s.db, c) {
      ParseCallKeyIff(CallKey(c), c);
      UnknownDecodes(s.db[CallKey(c)]);
    }
  }
}
