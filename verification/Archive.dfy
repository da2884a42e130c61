/** The spot archive: time-ordered keys, retention cleanup and newest-first reads. */
module Archive {
  import opened Common
  import opened Bytes
  import opened Pebble
  import opened Text
  import opened ArchiveCodec

  const SPOT_PREFIX: bytes := [0x73, 0x7C]   // "s|"
  const SPOT_KEY_LEN := 14

  function SpotKey(ts: int64, seqNo: uint32): (k: bytes)
    ensures |k| == SPOT_KEY_LEN
  {
    SPOT_PREFIX + BE(ToU64(ts), 8) + BE(seqNo, 4)
  }

  /** parseSpotKey's timestamp. */
  function SpotTime(k: bytes): (ts: Option<int64>) {
    if |k| != SPOT_KEY_LEN || !(SPOT_PREFIX <= k) then None else
      Pow256Values();
      Some(ToI64(FromBE(k[2..10])))
  }

  lemma SpotTimeOf(ts: int64, seqNo: uint32)
    ensures SpotTime(SpotKey(ts, seqNo)) == Some(ts)
  {
    Pow256Values();
    FromBEInverse(ToU64(ts), 8);
    assert SpotKey(ts, seqNo)[2..10] == BE(ToU64(ts), 8);
  }

  lemma SpotParts(k: bytes)
    requires |k| == SPOT_KEY_LEN && SPOT_PREFIX <= k
    ensures k == SPOT_PREFIX + (k[2..10] + k[10..])
  {
    assert k[..|SPOT_PREFIX|] == SPOT_PREFIX;
    assert k[2..] == k[2..10] + k[10..];
    assert k == k[..2] + k[2..];
  }

  /** Well-formed keys sort by the unsigned form of their timestamps. */
  lemma SpotOrder(a: bytes, b: bytes)
    requires SpotTime(a).Some? && SpotTime(b).Some? && LexLess(a, b)
    ensures ToU64(SpotTime(a).value) <= ToU64(SpotTime(b).value)
  {
    SpotParts(a);
    SpotParts(b);
    LexConcat(SPOT_PREFIX, a[2..10] + a[10..], SPOT_PREFIX, b[2..10] + b[10..]);
    LexIrreflexive(SPOT_PREFIX);
    LexConcat(a[2..10], a[10..], b[2..10], b[10..]);
    BEOrder(a[2..10], b[2..10]);
    Pow256Values();
  }

  // ---------------------------------------------------------------- retention

  /** The two cutoffs of a cleanup pass. */
  datatype Cutoffs = Cutoffs(ft: int64, other: int64) {
    function StopAfter(): (t: int64) { Max(ft, other) }
  }

  function RetentionCutoff(now: int64, seconds: int64): (t: int64) {
    if seconds <= 0 then MIN_INT64 else Wrap64(now - Wrap64(seconds * 1_000_000_000))
  }

  /** The cutoff a row's value is held against: its mode's, or the later of the two when the
      record does not decode. */
  function CutoffFor(v: bytes, cut: Cutoffs): (t: int64) {
    match Decode(v)
    case Err => cut.StopAfter()
    case Ok(r) => if |r.fields| == FIELD_COUNT && IsFT(r.fields[FIELD_MODE]) then cut.ft else cut.other
  }

  /** The retention rule for one row. Rows under foreign keys never expire. */
  predicate Expired(k: bytes, v: bytes, cut: Cutoffs) {
    SpotTime(k).Some? && SpotTime(k).value < CutoffFor(v, cut)
  }

  function ExpiredKeys(db: DB, cut: Cutoffs): (s: set<bytes>) {
    set k | k in db && Expired(k, db[k], cut)
  }

  /** A well-keyed row at or past the point where the scan stops. */
  predicate Stops(k: bytes, cut: Cutoffs) {
    SpotTime(k).Some? && SpotTime(k).value >= cut.StopAfter()
  }

  lemma ExpiredBeforeStop(k: bytes, v: bytes, cut: Cutoffs)
    requires Expired(k, v, cut)
    ensures SpotTime(k).value < cut.StopAfter() && !Stops(k, cut)
  {
    hide Decode, SpotTime, IsFT;
  }

  /** The expired rows the ascending scan reaches before it stops. */
  ghost function ReachedKeys(db: DB, cut: Cutoffs): (s: set<bytes>) {
    set k | k in db && Expired(k, db[k], cut) && !exists j :: j in db && Stops(j, cut) && LexLess(j, k)
  }

  /** No expired row carries a negative timestamp while another row, not negative, is
      late enough to stop the scan. */
  ghost predicate CleanupSafe(db: DB, cut: Cutoffs) {
    !exists j, k :: j in db && k in db && Stops(j, cut) && SpotTime(j).value >= 0
                    && Expired(k, db[k], cut) && SpotTime(k).value < 0
  }

  /** A stop precedes an expired row exactly when the row is negative and the stop is not. */
  lemma StopPrecedes(j: bytes, k: bytes, v: bytes, cut: Cutoffs)
    requires Stops(j, cut) && Expired(k, v, cut)
    ensures LexLess(j, k) <==> SpotTime(j).value >= 0 > SpotTime(k).value
  {
    ExpiredBeforeStop(k, v, cut);
    hide Decode, LexLess, Expired;
    LexTotal(j, k);
    if LexLess(j, k) { SpotOrder(j, k); }
    if LexLess(k, j) { SpotOrder(k, j); }
  }

  /** Main cleanup result: the early stop loses nothing, so a pass deletes exactly the
      expired rows, if and only if the store is safe for it. */
  lemma CleanupExactIff(db: DB, cut: Cutoffs)
    ensures ReachedKeys(db, cut) == ExpiredKeys(db, cut) <==> CleanupSafe(db, cut)
  {
    hide Decode, LexLess, SpotTime, IsFT;
    if CleanupSafe(db, cut) {
      forall k | k in ExpiredKeys(db, cut) ensures k in ReachedKeys(db, cut) {
        forall j | j in db && Stops(j, cut) ensures !LexLess(j, k) { StopPrecedes(j, k, db[k], cut); }
      }
    } else {
      var j, k :| j in db && k in db && Stops(j, cut) && SpotTime(j).value >= 0
                  && Expired(k, db[k], cut) && SpotTime(k).value < 0;
      StopPrecedes(j, k, db[k], cut);
      assert k in ExpiredKeys(db, cut) && k !in ReachedKeys(db, cut);
    }
  }

  lemma DeletedIffSafe(db: DB, cut: Cutoffs)
    ensures db - ReachedKeys(db, cut) == db - ExpiredKeys(db, cut) <==> CleanupSafe(db, cut)
  {
    hide Expired, LexLess, SpotTime, CleanupSafe, Stops;
    CleanupExactIff(db, cut);
    var reached, expired := ReachedKeys(db, cut), ExpiredKeys(db, cut);
    if db - reached == db - expired {
      forall k | k in expired ensures k in reached {
        assert k !in db - expired;
      }
      assert reached == expired;
    }
  }

  /** A pass that leaves an expired row behind: time -1 sorts after time 10. */
  lemma NegativeRowSurvives()
    ensures var cut := Cutoffs(5, 5);
            var db: DB := map[SpotKey(-1, 1) := [], SpotKey(10, 1) := []];
            ReachedKeys(db, cut) != ExpiredKeys(db, cut)
  {
    hide LexLess, SpotKey, SpotTime;
    var cut := Cutoffs(5, 5);
    var db: DB := map[SpotKey(-1, 1) := [], SpotKey(10, 1) := []];
    SpotTimeOf(-1, 1);
    SpotTimeOf(10, 1);
    CleanupExactIff(db, cut);
    assert Stops(SpotKey(10, 1), cut) && Expired(SpotKey(-1, 1), db[SpotKey(-1, 1)], cut);
  }

  ghost predicate NonNegative(db: DB) {
    forall k :: k in db && SpotTime(k).Some? ==> SpotTime(k).value >= 0
  }

  lemma NonNegativeIsSafe(db: DB, cut: Cutoffs)
    requires NonNegative(db)
    ensures CleanupSafe(db, cut)
  {
    hide Decode, SpotTime, IsFT;
  }

  // ---------------------------------------------------------------- retention in plain terms

  /** FT8 or FT4 in any mix of case. */
  predicate FTMode(m: bytes) {
    |m| == 3 && (m[0] == 0x46 || m[0] == 0x66) && (m[1] == 0x54 || m[1] == 0x74) && (m[2] == 0x38 || m[2] == 0x34)
  }

  /** A row has been kept for longer than so many seconds; zero or less means for ever. */
  predicate Outlived(ts: int64, seconds: int64, now: int64) {
    seconds > 0 && now - ts > seconds * 1_000_000_000
  }

  /** What cleanup promises of a row flushed at a time from 1970 on. A record, whose fourth text is
      its mode, stays for the retention of its mode; a value that does not decode goes with the
      shorter one; rows under other keys stay, and nothing that stays changes. */
  ghost predicate RetentionKept(before: DB, after: DB, now: int64, retentionFT: int64, retentionOther: int64) {
    && (forall ts: int64, seqNo: uint32, r: Record ::
          ts >= 0 && SpotKey(ts, seqNo) in before && Storable(r) && before[SpotKey(ts, seqNo)] == Encoded(r) ==>
            (SpotKey(ts, seqNo) in after <==>
             !Outlived(ts, if FTMode(r.fields[3]) then retentionFT else retentionOther, now)))
    && (forall ts: int64, seqNo: uint32 ::
          ts >= 0 && SpotKey(ts, seqNo) in before && Decode(before[SpotKey(ts, seqNo)]).Err? ==>
            (SpotKey(ts, seqNo) in after <==>
             !Outlived(ts, retentionFT, now) && !Outlived(ts, retentionOther, now)))
    && (forall k :: k in before && SpotTime(k).None? ==> k in after)
    && (forall k :: k in after ==> k in before && after[k] == before[k])
  }

  /** The numbers stay in range: the clock is past 1970 and a retention fits in nanoseconds. */
  predicate InRange64(now: int64, seconds: int64) {
    now >= 0 && seconds * 1_000_000_000 <= MAX_INT64
  }

  lemma CutoffMeans(now: int64, seconds: int64, ts: int64)
    requires InRange64(now, seconds) && ts >= 0
    ensures ts < RetentionCutoff(now, seconds) <==> Outlived(ts, seconds, now)
  {
  }

  lemma FTModeIff(m: bytes)
    ensures IsFT(m) <==> FTMode(m)
  {
    if |m| == 3 {
      UpperExact(m, 0);
      UpperExact(m, 1);
      UpperExact(m, 2);
      assert ToUpper(m) == [ToUpper(m)[0], ToUpper(m)[1], ToUpper(m)[2]];
    }
  }

  lemma RowExpires(now: int64, retentionFT: int64, retentionOther: int64, ts: int64, seqNo: uint32, v: bytes)
    requires InRange64(now, retentionFT) && InRange64(now, retentionOther) && ts >= 0
    ensures var cut := Cutoffs(RetentionCutoff(now, retentionFT), RetentionCutoff(now, retentionOther));
            match Decode(v)
            case Err => Expired(SpotKey(ts, seqNo), v, cut) <==>
                        Outlived(ts, retentionFT, now) || Outlived(ts, retentionOther, now)
            case Ok(r) => |r.fields| == FIELD_COUNT ==>
                          (Expired(SpotKey(ts, seqNo), v, cut) <==>
                           Outlived(ts, if FTMode(r.fields[3]) then retentionFT else retentionOther, now))
  {
    SpotTimeOf(ts, seqNo);
    CutoffMeans(now, retentionFT, ts);
    CutoffMeans(now, retentionOther, ts);
    if Decode(v).Ok? && |Decode(v).value.fields| == FIELD_COUNT { FTModeIff(Decode(v).value.fields[3]); }
    hide SpotTime, SpotKey, Decode, RetentionCutoff, Outlived, IsFT, FTMode;
  }

  lemma RetentionHolds(db: DB, now: int64, retentionFT: int64, retentionOther: int64)
    requires NonNegative(db) && InRange64(now, retentionFT) && InRange64(now, retentionOther)
    ensures var cut := Cutoffs(RetentionCutoff(now, retentionFT), RetentionCutoff(now, retentionOther));
            RetentionKept(db, db - ReachedKeys(db, cut), now, retentionFT, retentionOther)
  {
    var cut := Cutoffs(RetentionCutoff(now, retentionFT), RetentionCutoff(now, retentionOther));
    NonNegativeIsSafe(db, cut);
    CleanupExactIff(db, cut);
    hide ReachedKeys, SpotKey, Decode, Encoded, Outlived, FTMode, RetentionCutoff, LexLess, CleanupSafe, NonNegative;
    forall ts: int64, seqNo: uint32, r: Record
      | ts >= 0 && SpotKey(ts, seqNo) in db && Storable(r) && db[SpotKey(ts, seqNo)] == Encoded(r)
      ensures SpotKey(ts, seqNo) in ExpiredKeys(db, cut) <==>
              Outlived(ts, if FTMode(r.fields[3]) then retentionFT else retentionOther, now)
    {
      RoundTrip(r);
      RowExpires(now, retentionFT, retentionOther, ts, seqNo, Encoded(r));
    }
    forall ts: int64, seqNo: uint32
      | ts >= 0 && SpotKey(ts, seqNo) in db && Decode(db[SpotKey(ts, seqNo)]).Err?
      ensures SpotKey(ts, seqNo) in ExpiredKeys(db, cut) <==>
              Outlived(ts, retentionFT, now) || Outlived(ts, retentionOther, now)
    {
      RowExpires(now, retentionFT, retentionOther, ts, seqNo, db[SpotKey(ts, seqNo)]);
    }
    forall k | k in db && SpotTime(k).None? ensures k !in ExpiredKeys(db, cut) { ForeignKept(k, db[k], cut); }
  }

  // ---------------------------------------------------------------- cleanup loop

  function ExpiredIn(db: DB, keys: seq<bytes>, cut: Cutoffs): (s: set<bytes>)
    requires forall k :: k in keys ==> k in db
  {
    set k | k in keys && Expired(k, db[k], cut)
  }

  /** Where the cleanup loop stands: db holds the committed chunks, waiting are the
      deletions still in the batch. */
  ghost predicate CleanPoint(start: DB, db: DB, gone: set<bytes>, waiting: set<bytes>, batch: seq<Op>,
                             visited: seq<bytes>, pending: nat, cut: Cutoffs) {
    && (forall k :: k in visited ==> k in start)
    && db == start - gone
    && Commit(db, batch) == start - (gone + waiting)
    && gone + waiting == ExpiredIn(start, visited, cut)
    && (pending == 0 ==> batch == [])
  }

  lemma CleanStart(db: DB, cut: Cutoffs)
    ensures CleanPoint(db, db, {}, {}, [], [], 0, cut)
  {
    assert db - {} == db;
  }

  lemma CleanVisit(start: DB, db: DB, gone: set<bytes>, waiting: set<bytes>, batch: seq<Op>,
                   visited: seq<bytes>, pending: nat, cut: Cutoffs, k: bytes)
    requires CleanPoint(start, db, gone, waiting, batch, visited, pending, cut) && k in start
    ensures if Expired(k, start[k], cut)
            then CleanPoint(start, db, gone, waiting + {k}, batch + [Op.Delete(k)], visited + [k], pending + 1, cut)
            else CleanPoint(start, db, gone, waiting, batch, visited + [k], pending, cut)
  {
    hide Expired;
    CommitSnoc(db, batch, Op.Delete(k));
    assert start - (gone + waiting) - {k} == start - (gone + (waiting + {k}));
    if Expired(k, start[k], cut) {
      assert ExpiredIn(start, visited + [k], cut) == ExpiredIn(start, visited, cut) + {k};
    } else {
      assert ExpiredIn(start, visited + [k], cut) == ExpiredIn(start, visited, cut);
    }
  }

  lemma CleanCommit(start: DB, db: DB, gone: set<bytes>, waiting: set<bytes>, batch: seq<Op>,
                    visited: seq<bytes>, pending: nat, cut: Cutoffs)
    requires CleanPoint(start, db, gone, waiting, batch, visited, pending, cut)
    ensures CleanPoint(start, Commit(db, batch), gone + waiting, {}, [], visited, 0, cut)
    ensures Commit(db, batch) == start - ExpiredIn(start, visited, cut)
    ensures pending == 0 ==> Commit(db, batch) == db
  {
    hide Expired;
    assert gone + waiting + {} == gone + waiting;
  }

  /** The visited rows, up to the first stop, hold exactly the reached ones. */
  lemma VisitedIsReached(db: DB, keys: seq<bytes>, i: nat, cut: Cutoffs, upper: Option<bytes>)
    requires Ascending(keys) && i <= |keys|
    requires forall k :: k in keys <==> k in db && InRange(k, SPOT_PREFIX, upper)
    requires forall k: bytes :: SPOT_PREFIX <= k <==> InRange(k, SPOT_PREFIX, upper)
    requires forall j :: 0 <= j < i ==> !Stops(keys[j], cut)
    requires i < |keys| ==> Stops(keys[i], cut)
    ensures forall k :: k in keys[..i] ==> k in db
    ensures ExpiredIn(db, keys[..i], cut) == ReachedKeys(db, cut)
  {
    hide LexLess, Expired, InRange;
    assert forall k :: k in keys[..i] ==> k in keys;
    forall k | k in ExpiredIn(db, keys[..i], cut) ensures k in ReachedKeys(db, cut) {
      var n :| 0 <= n < i && keys[n] == k;
      forall j | j in db && Stops(j, cut) ensures !LexLess(j, k) {
        StopNotBefore(db, keys, i, n, j, cut);
      }
    }
    forall k | k in ReachedKeys(db, cut) ensures k in ExpiredIn(db, keys[..i], cut) {
      WellKeyed(k, db[k], cut);
      assert k in keys;
      var n :| 0 <= n < |keys| && keys[n] == k;
      ReachedEarly(db, keys, i, n, cut);
      assert keys[..i][n] == k;
    }
  }

  /** A reached row stands before the row the scan stopped at. */
  lemma ReachedEarly(db: DB, keys: seq<bytes>, i: nat, n: nat, cut: Cutoffs)
    requires Ascending(keys) && i <= |keys| && n < |keys|
    requires forall k :: k in keys ==> k in db
    requires i < |keys| ==> Stops(keys[i], cut)
    requires keys[n] in ReachedKeys(db, cut)
    ensures n < i
  {
    hide LexLess, Expired, SpotTime;
    ExpiredBeforeStop(keys[n], db[keys[n]], cut);
    assert i < |keys| ==> keys[i] in db;
  }

  lemma WellKeyed(k: bytes, v: bytes, cut: Cutoffs)
    ensures Expired(k, v, cut) || Stops(k, cut) ==> SPOT_PREFIX <= k
  {
    hide Decode, IsFT;
  }

  lemma StopNotBefore(db: DB, keys: seq<bytes>, i: nat, n: nat, j: bytes, cut: Cutoffs)
    requires Ascending(keys) && n < i <= |keys| && Stops(j, cut)
    requires forall m :: 0 <= m < i ==> !Stops(keys[m], cut)
    requires SPOT_PREFIX <= j ==> j in keys
    ensures !LexLess(j, keys[n])
  {
    hide LexLess;
    WellKeyed(j, [], cut);
    var m :| 0 <= m < |keys| && keys[m] == j;
    assert n < m;
    LexAsymmetric(keys[n], keys[m]);
  }

  // ---------------------------------------------------------------- newest first

  const RECENT_SCAN_MULTIPLIER := 20
  const RECENT_SCAN_GROWTH := 4
  const RECENT_SCAN_MAX := 200000

  function Reversed<T>(s: seq<T>): (r: seq<T>)
    ensures |r| == |s|
  {
    seq(|s|, i requires 0 <= i < |s| => s[|s| - 1 - i])
  }

  /** The archived keys, newest first. */
  function Newest(db: DB): (keys: seq<bytes>)
    ensures forall i :: 0 <= i < |keys| ==> keys[i] in db
  {
    var keys := Sorted(set k | k in db && SPOT_PREFIX <= k);
    assert forall i :: 0 <= i < |keys| ==> keys[i] in keys;
    Reversed(keys)
  }

  /** Later keys come first, so times never increase (as unsigned numbers). */
  lemma NewestOrdered(db: DB, i: nat, j: nat)
    requires i < j < |Newest(db)| && SpotTime(Newest(db)[i]).Some? && SpotTime(Newest(db)[j]).Some?
    ensures ToU64(SpotTime(Newest(db)[i]).value) >= ToU64(SpotTime(Newest(db)[j]).value)
  {
    hide LexLess, SpotTime, Sorted;
    SpotOrder(Newest(db)[j], Newest(db)[i]);
  }

  /** The row is decodable and wanted. */
  predicate Hit(db: DB, k: bytes, wanted: (int64, Record) -> bool)
    requires k in db
  {
    SpotTime(k).Some? && Decode(db[k]).Ok? && wanted(SpotTime(k).value, Decode(db[k]).value)
  }

  /** The wanted spots among these keys, in their order. */
  function Hits(db: DB, keys: seq<bytes>, wanted: (int64, Record) -> bool): (r: seq<(int64, Record)>)
    requires forall i :: 0 <= i < |keys| ==> keys[i] in db
  {
    if keys == [] then [] else
      var n := |keys| - 1;
      Hits(db, keys[..n], wanted)
      + (if Hit(db, keys[n], wanted) then [(SpotTime(keys[n]).value, Decode(db[keys[n]]).value)] else [])
  }

  lemma {:induction false} HitsPrefix(db: DB, keys: seq<bytes>, wanted: (int64, Record) -> bool, i: nat)
    requires i <= |keys| && forall j :: 0 <= j < |keys| ==> keys[j] in db
    ensures Hits(db, keys[..i], wanted) <= Hits(db, keys, wanted)
    decreases |keys|
  {
    hide Hit;
    if i < |keys| {
      var n := |keys| - 1;
      assert keys[..n][..i] == keys[..i];
      HitsPrefix(db, keys[..n], wanted, i);
    } else {
      assert keys[..i] == keys;
    }
  }

  /** The hits are exactly the wanted spots of the rows that decode, with their times. */
  lemma {:induction false} HitsMeans(db: DB, keys: seq<bytes>, wanted: (int64, Record) -> bool, x: (int64, Record))
    requires forall j :: 0 <= j < |keys| ==> keys[j] in db
    ensures x in Hits(db, keys, wanted) <==>
            && wanted(x.0, x.1)
            && exists i :: 0 <= i < |keys| && SpotTime(keys[i]) == Some(x.0) && Decode(db[keys[i]]) == Ok(x.1)
  {
    hide SpotTime, Decode;
    if keys != [] {
      var n := |keys| - 1;
      HitsMeans(db, keys[..n], wanted, x);
      if i :| 0 <= i < n && SpotTime(keys[i]) == Some(x.0) && Decode(db[keys[i]]) == Ok(x.1) {
        assert keys[..n][i] == keys[i];
      }
    }
  }

  /** RecentFiltered: the growing scan limit never shows, so the result is the first limit
      hits among the newest 200000 rows. */
  method RecentFiltered(db: DB, limit: int64, wanted: (int64, Record) -> bool)
    returns (results: seq<(int64, Record)>)
    ensures results == Take(Hits(db, Take(Newest(db), RECENT_SCAN_MAX), wanted), limit)
  {
    hide LexLess, Hits, InRange, Newest, Sorted;
    if limit <= 0 { return []; }
    var upper := PrefixUpperBound(SPOT_PREFIX);
    var keys := Scan(db, SPOT_PREFIX, upper);
    ScanIsNewest(db, upper);
    results := ScanNewest(db, Reversed(keys), limit, wanted);
  }

  /** The iterator's range holds exactly the keys with the prefix. */
  lemma ScanIsNewest(db: DB, upper: Option<bytes>)
    requires forall k: bytes :: SPOT_PREFIX <= k <==> InRange(k, SPOT_PREFIX, upper)
    ensures Reversed(Scan(db, SPOT_PREFIX, upper)) == Newest(db)
  {
    hide InRange, Sorted;
    assert (set k | k in db && InRange(k, SPOT_PREFIX, upper)) == (set k | k in db && SPOT_PREFIX <= k);
  }

  /** The scan over the iterator's keys, last one first. */
  method ScanNewest(db: DB, order: seq<bytes>, limit: int64, wanted: (int64, Record) -> bool)
    returns (results: seq<(int64, Record)>)
    requires limit > 0 && forall i :: 0 <= i < |order| ==> order[i] in db
    ensures results == Take(Hits(db, Take(order, RECENT_SCAN_MAX), wanted), limit)
  {
    hide Hits, Wrap64, SpotTime, Decode, Take;
    results := [];
    var scanned := 0;
    var scanLimit: int := Wrap64(limit * RECENT_SCAN_MULTIPLIER);
    if scanLimit < limit { scanLimit := limit; }
    if scanLimit > RECENT_SCAN_MAX { scanLimit := RECENT_SCAN_MAX; }
    HitsNone(db, order, wanted);
    while scanned < |order| && |results| < limit
      invariant 0 <= scanned <= |order| && 0 < scanLimit <= RECENT_SCAN_MAX && scanned <= scanLimit
      invariant results == Hits(db, order[..scanned], wanted) && |results| <= limit
      decreases |order| - scanned
    {
      if scanned >= scanLimit {
        if scanLimit >= RECENT_SCAN_MAX { break; }
        if scanLimit > RECENT_SCAN_MAX / RECENT_SCAN_GROWTH {
          scanLimit := RECENT_SCAN_MAX;
        } else {
          scanLimit := scanLimit * RECENT_SCAN_GROWTH;
          if scanLimit > RECENT_SCAN_MAX { scanLimit := RECENT_SCAN_MAX; }
        }
      }
      var k := order[scanned];
      HitsNext(db, order, wanted, scanned);
      scanned := scanned + 1;
      var ts := SpotTime(k);
      if ts.None? { continue; }
      var rec := DecodeRecord(db[k]);
      if rec.Err? { continue; }
      if !wanted(ts.value, rec.value) { continue; }
      results := results + [(ts.value, rec.value)];
    }
    ScanSuffices(db, order, wanted, scanned, limit);
  }

  lemma HitsNone(db: DB, order: seq<bytes>, wanted: (int64, Record) -> bool)
    ensures Hits(db, order[..0], wanted) == []
  {
  }

  lemma HitsNext(db: DB, order: seq<bytes>, wanted: (int64, Record) -> bool, i: nat)
    requires i < |order| && forall j :: 0 <= j < |order| ==> order[j] in db
    ensures var k := order[i];
            var found := Hits(db, order[..i], wanted);
            Hits(db, order[..i + 1], wanted)
            == if SpotTime(k).Some? && Decode(db[k]).Ok? && wanted(SpotTime(k).value, Decode(db[k]).value)
               then found + [(SpotTime(k).value, Decode(db[k]).value)] else found
  {
    hide SpotTime, Decode;
    assert order[..i + 1][..i] == order[..i];
  }

  lemma ScanSuffices(db: DB, order: seq<bytes>, wanted: (int64, Record) -> bool, scanned: nat, limit: int)
    requires forall j :: 0 <= j < |order| ==> order[j] in db
    requires limit > 0 && scanned <= |order| && scanned <= RECENT_SCAN_MAX
    requires |Hits(db, order[..scanned], wanted)| <= limit
    requires scanned == |order| || scanned == RECENT_SCAN_MAX || |Hits(db, order[..scanned], wanted)| == limit
    ensures Hits(db, order[..scanned], wanted) == Take(Hits(db, Take(order, RECENT_SCAN_MAX), wanted), limit)
  {
    hide Hit;
    var window := Take(order, RECENT_SCAN_MAX);
    assert window[..scanned] == order[..scanned];
    HitsPrefix(db, window, wanted, scanned);
    if scanned == |window| { assert window[..scanned] == window; }
  }

  // ---------------------------------------------------------------- writing spots

  /** A queued spot: its time (none for the zero time) and what the record stores. */
  datatype Spot = Spot(time: Option<int64>, rec: FullRecord)

  type FullRecord = r: Record | |r.fields| == FIELD_COUNT
    witness Record(false, false, false, false, 0, 0, 0, 0, 0, 0, 0, seq(FIELD_COUNT, i => []))

  /** The spots of a batch that are not nil. */
  function Spots(batch: seq<Option<Spot>>): (r: seq<Spot>) {
    if batch == [] then [] else
      var n := |batch| - 1;
      Spots(batch[..n]) + if batch[n].Some? then [batch[n].value] else []
  }

  lemma SpotsSnoc(batch: seq<Option<Spot>>, i: nat)
    requires i < |batch|
    ensures Spots(batch[..i + 1])
            == if batch[i].Some? then Spots(batch[..i]) + [batch[i].value] else Spots(batch[..i])
  {
    assert batch[..i + 1][..i] == batch[..i];
  }

  /** normalizeUnixNano. */
  function Stamp(s: Spot, now: int64): (ts: int64) {
    if s.time.None? then now else Max(s.time.value, 0)
  }

  function FlushKey(seqNo: uint32, batch: seq<Spot>, i: nat, now: int64): (k: bytes)
    requires i < |batch|
  {
    SpotKey(Stamp(batch[i], now), (seqNo + 1 + i) % TWO32)
  }

  /** The database after a batch, the sequence number standing at seqNo before it. */
  function Flushed(db: DB, seqNo: uint32, batch: seq<Spot>, now: int64): (r: DB) {
    if batch == [] then db else
      var n := |batch| - 1;
      Flushed(db, seqNo, batch[..n], now)[FlushKey(seqNo, batch, n, now) := Encoded(batch[n].rec)]
  }

  lemma FlushedNone(db: DB, seqNo: uint32, now: int64)
    ensures Flushed(db, seqNo, [], now) == db
  {
  }

  lemma FlushedSnoc(db: DB, seqNo: uint32, batch: seq<Spot>, s: Spot, now: int64)
    ensures Flushed(db, seqNo, batch + [s], now)
            == Flushed(db, seqNo, batch, now)[SpotKey(Stamp(s, now), (seqNo + 1 + |batch|) % TWO32) := Encoded(s.rec)]
  {
    hide SpotKey, Encoded;
    assert (batch + [s])[..|batch|] == batch;
  }

  lemma NextSeq(seqNo: uint32, i: nat)
    ensures ((seqNo + i) % TWO32 + 1) % TWO32 == (seqNo + 1 + i) % TWO32
  {
  }

  lemma SeqsDiffer(seqNo: uint32, i: nat, n: nat)
    requires i < n < TWO32
    ensures (seqNo + 1 + i) % TWO32 != (seqNo + 1 + n) % TWO32
  {
  }

  /** Spot keys carry their sequence number: different numbers, different keys. */
  lemma SpotKeySeq(a: int64, m: uint32, b: int64, n: uint32)
    requires SpotKey(a, m) == SpotKey(b, n)
    ensures m == n
  {
    Pow256Values();
    FromBEInverse(m, 4);
    FromBEInverse(n, 4);
    assert SpotKey(a, m)[10..] == BE(m, 4) && SpotKey(b, n)[10..] == BE(n, 4);
  }

  /** Every spot of a batch is stored under its own time, the clock's without one and zero before
      1970, and none overwrites another: the sequence numbers of up to 2^32 spots differ. */
  lemma {:induction false} FlushedKept(db: DB, seqNo: uint32, batch: seq<Spot>, now: int64, i: nat)
    requires i < |batch| <= TWO32
    ensures FlushKey(seqNo, batch, i, now) in Flushed(db, seqNo, batch, now)
    ensures Flushed(db, seqNo, batch, now)[FlushKey(seqNo, batch, i, now)] == Encoded(batch[i].rec)
    ensures FlushKey(seqNo, batch, i, now)
            == SpotKey(match batch[i].time case None => now case Some(t) => if t < 0 then 0 else t,
                       (seqNo + 1 + i) % TWO32)
    decreases |batch|
  {
    hide SpotKey, Encoded;
    var n := |batch| - 1;
    if i < n {
      FlushedKept(db, seqNo, batch[..n], now, i);
      assert FlushKey(seqNo, batch[..n], i, now) == FlushKey(seqNo, batch, i, now);
      SeqsDiffer(seqNo, i, n);
      if FlushKey(seqNo, batch, i, now) == FlushKey(seqNo, batch, n, now) {
        SpotKeySeq(Stamp(batch[i], now), (seqNo + 1 + i) % TWO32, Stamp(batch[n], now), (seqNo + 1 + n) % TWO32);
      }
    }
  }

  lemma {:induction false} FlushedNonNegative(db: DB, seqNo: uint32, batch: seq<Spot>, now: int64)
    requires NonNegative(db) && now >= 0
    ensures NonNegative(Flushed(db, seqNo, batch, now))
  {
    hide SpotKey, Encoded, SpotTime;
    if batch != [] {
      var n := |batch| - 1;
      FlushedNonNegative(db, seqNo, batch[..n], now);
      SpotTimeOf(Stamp(batch[n], now), (seqNo + 1 + n) % TWO32);
    }
  }

  // ---------------------------------------------------------------- archives of this writer

  /** What a writer does to its archive: batches that commit, cleanup passes. */
  datatype Request = Store(seqNo: uint32, batch: seq<Spot>, now: int64) | Clean(cut: Cutoffs)

  ghost function Archived(requests: seq<Request>): (db: DB) {
    if requests == [] then map[] else
      var before := Archived(requests[..|requests| - 1]);
      match requests[|requests| - 1]
      case Store(seqNo, batch, now) => Flushed(before, seqNo, batch, now)
      case Clean(cut) => before - ReachedKeys(before, cut)
  }

  /** In every archive a writer builds with a clock past 1970, cleanup deletes exactly the
      expired rows, whatever the cutoffs. */
  lemma {:induction false} WriterCleansExactly(requests: seq<Request>, cut: Cutoffs)
    requires forall i :: 0 <= i < |requests| && requests[i].Store? ==> requests[i].now >= 0
    ensures NonNegative(Archived(requests))
    ensures ReachedKeys(Archived(requests), cut) == ExpiredKeys(Archived(requests), cut)
  {
    hide Flushed, SpotTime, ReachedKeys, ExpiredKeys, CleanupSafe;
    if requests != [] {
      var n := |requests| - 1;
      WriterCleansExactly(requests[..n], cut);
      if requests[n].Store? {
        FlushedNonNegative(Archived(requests[..n]), requests[n].seqNo, requests[n].batch, requests[n].now);
      }
    }
    NonNegativeIsSafe(Archived(requests), cut);
    CleanupExactIff(Archived(requests), cut);
  }

  // ---------------------------------------------------------------- the writer

  const CLEANUP_BATCH_DEFAULT := 2000
  const CLEANUP_BATCH_MAX := 10000

  class Writer {
    var db: DB
    var seqNo: uint32

    constructor ()
      ensures db == map[] && NonNegative(db)
    {
      db := map[];
      seqNo := 0;
    }

    /** flush: nil spots are skipped, one commit for the rest; a refused commit is only logged. */
    method Flush(batch: seq<Option<Spot>>, now: int64, committed: bool)
      modifies this
      ensures db == if committed then Flushed(old(db), old(seqNo), Spots(batch), now) else old(db)
      ensures seqNo == (old(seqNo) + |Spots(batch)|) % TWO32
      ensures old(NonNegative(db)) && now >= 0 ==> NonNegative(db)
    {
      hide SpotKey, Encoded, Flushed, SpotTime;
      var ops: seq<Op> := [];
      ghost var start := seqNo;
      FlushedNone(db, start, now);
      assert batch[..0] == [];
      for i := 0 to |batch|
        invariant db == old(db) && seqNo == (start + |Spots(batch[..i])|) % TWO32
        invariant Commit(db, ops) == Flushed(db, start, Spots(batch[..i]), now)
      {
        SpotsSnoc(batch, i);
        if batch[i].None? { continue; }
        ghost var done := Spots(batch[..i]);
        NextSeq(start, |done|);
        seqNo := (seqNo + 1) % TWO32;
        var key := SpotKey(Stamp(batch[i].value, now), seqNo);
        var val := EncodeRecord(batch[i].value.rec);
        FlushedSnoc(db, start, done, batch[i].value, now);
        CommitSnoc(db, ops, Op.Set(key, val[..]));
        ops := ops + [Op.Set(key, val[..])];
      }
      assert batch[..|batch|] == batch;
      if NonNegative(db) && now >= 0 { FlushedNonNegative(db, start, Spots(batch), now); }
      if committed { db := Commit(db, ops); }
    }

    /** cleanupOnce; failAt is the number of the commit Pebble refuses, if any. */
    method CleanupOnce(now: int64, retentionFT: int64, retentionOther: int64, batchSize: int, failAt: Option<nat>)
      returns (ok: bool)
      modifies this`db
      ensures failAt.None? ==> ok
      ensures var cut := Cutoffs(RetentionCutoff(now, retentionFT), RetentionCutoff(now, retentionOther));
              && (ok ==> db == old(db) - ReachedKeys(old(db), cut))
              && (ok ==> (db == old(db) - ExpiredKeys(old(db), cut) <==> CleanupSafe(old(db), cut)))
              && exists gone :: gone <= ExpiredKeys(old(db), cut) && db == old(db) - gone
      ensures old(NonNegative(db)) ==> NonNegative(db)
      ensures ok && old(NonNegative(db)) && InRange64(now, retentionFT) && InRange64(now, retentionOther) ==>
                RetentionKept(old(db), db, now, retentionFT, retentionOther)
    {
      hide Expired, LexLess, InRange, SpotTime, CleanPoint, RetentionCutoff, CleanupSafe, Stops, RetentionKept;
      var cut := Cutoffs(RetentionCutoff(now, retentionFT), RetentionCutoff(now, retentionOther));
      var size := if batchSize <= 0 then CLEANUP_BATCH_DEFAULT
                  else if batchSize > CLEANUP_BATCH_MAX then CLEANUP_BATCH_MAX else batchSize;
      var upper := PrefixUpperBound(SPOT_PREFIX);
      var keys := Scan(db, SPOT_PREFIX, upper);
      ghost var start := db;
      var n;
      ghost var gone;
      n, ok, gone := CleanupLoop(keys, cut, size, failAt);
      if ok {
        VisitedIsReached(start, keys, n, cut, upper);
        DeletedIffSafe(start, cut);
        if NonNegative(start) && InRange64(now, retentionFT) && InRange64(now, retentionOther) {
          RetentionHolds(start, now, retentionFT, retentionOther);
        }
      }
      assert gone <= ExpiredKeys(start, cut) && db == start - gone;
    }

    method CleanupLoop(keys: seq<bytes>, cut: Cutoffs, size: nat, failAt: Option<nat>)
      returns (i: nat, ok: bool, ghost gone: set<bytes>)
      requires size > 0 && Ascending(keys) && forall k :: k in keys ==> k in db
      modifies this`db
      ensures failAt.None? ==> ok
      ensures gone <= ExpiredKeys(old(db), cut) && db == old(db) - gone
      ensures i <= |keys| && forall k :: k in keys[..i] ==> k in old(db)
      ensures ok ==> db == old(db) - ExpiredIn(old(db), keys[..i], cut)
      ensures ok ==> (forall j :: 0 <= j < i ==> !Stops(keys[j], cut)) && (i < |keys| ==> Stops(keys[i], cut))
    {
      hide Expired, SpotTime, CleanPoint;
      ghost var start := db;
      var batch: seq<Op> := [];
      var pending := 0;
      var commits := 0;
      ghost var waiting := {};
      gone := {};
      i := 0;
      CleanStart(db, cut);
      assert keys[..0] == [];
      while i < |keys|
        invariant i <= |keys|
        invariant CleanPoint(start, db, gone, waiting, batch, keys[..i], pending, cut)
        invariant forall j :: 0 <= j < i ==> !Stops(keys[j], cut)
      {
        var key := keys[i];
        assert keys[..i + 1] == keys[..i] + [key] && key in keys;
        var ts := SpotTime(key);
        CleanVisit(start, db, gone, waiting, batch, keys[..i], pending, cut, key);
        if ts.None? {
          ForeignKept(key, start[key], cut);
          i := i + 1;
          continue;
        }
        if ts.value >= cut.StopAfter() { break; }
        NotVisited(keys, i);
        CleanFrame(start, db, gone, waiting, batch, keys[..i], pending, cut, key);
        var drop := Outdated(ts.value, db[key], cut);
        ExpiredIff(key, db[key], cut);
        i := i + 1;
        if !drop { continue; }
        batch := batch + [Op.Delete(key)];
        pending, waiting := pending + 1, waiting + {key};
        if pending >= size {
          if failAt == Some(commits) {
            CleanGone(start, db, gone, waiting, batch, keys[..i], pending, cut);
            return i, false, gone;
          }
          commits := commits + 1;
          CleanCommit(start, db, gone, waiting, batch, keys[..i], pending, cut);
          db := Commit(db, batch);
          gone := gone + waiting;
          batch, pending, waiting := [], 0, {};
        }
      }
      CleanGone(start, db, gone, waiting, batch, keys[..i], pending, cut);
      CleanCommit(start, db, gone, waiting, batch, keys[..i], pending, cut);
      if pending > 0 {
        if failAt == Some(commits) { return i, false, gone; }
        db := Commit(db, batch);
        gone := gone + waiting;
      }
      CleanGone(start, Commit(db, []), gone + waiting, {}, [], keys[..i], 0, cut);
      return i, true, gone;
    }

    /** The per-row test: the mode peek decides which cutoff applies. */
    method Outdated(ts: int64, value: bytes, cut: Cutoffs) returns (drop: bool)
      requires ts < cut.StopAfter()
      ensures drop <==> ts < CutoffFor(value, cut)
    {
      hide Decode, IsFT;
      var cutoff := cut.other;
      var isFT := ModeIsFTRecord(value);
      DecodedFields(value);
      if isFT.Err? { return true; }
      if cut.ft != cut.other && isFT.value { cutoff := cut.ft; }
      return !(ts >= cutoff);
    }
  }

  lemma DecodedFields(v: bytes)
    ensures Decode(v).Ok? ==> |Decode(v).value.fields| == FIELD_COUNT
  {
  }

  lemma ExpiredIff(k: bytes, v: bytes, cut: Cutoffs)
    ensures Expired(k, v, cut) <==> SpotTime(k).Some? && SpotTime(k).value < CutoffFor(v, cut)
  {
  }

  lemma ForeignKept(k: bytes, v: bytes, cut: Cutoffs)
    requires SpotTime(k).None?
    ensures !Expired(k, v, cut) && !Stops(k, cut)
  {
  }

  lemma NotVisited(keys: seq<bytes>, i: nat)
    requires Ascending(keys) && i < |keys|
    ensures keys[i] !in keys[..i]
  {
    hide LexLess;
    forall j | 0 <= j < i ensures keys[j] != keys[i] { AscendingDistinct(keys, j, i); }
  }

  /** A row not yet visited is still in the database. */
  lemma CleanFrame(start: DB, db: DB, gone: set<bytes>, waiting: set<bytes>, batch: seq<Op>,
                   visited: seq<bytes>, pending: nat, cut: Cutoffs, k: bytes)
    requires CleanPoint(start, db, gone, waiting, batch, visited, pending, cut) && k in start && k !in visited
    ensures k in db && db[k] == start[k]
  {
    hide Expired;
  }

  lemma CleanGone(start: DB, db: DB, gone: set<bytes>, waiting: set<bytes>, batch: seq<Op>,
                  visited: seq<bytes>, pending: nat, cut: Cutoffs)
    requires CleanPoint(start, db, gone, waiting, batch, visited, pending, cut)
    ensures gone <= ExpiredKeys(start, cut) && db == start - gone
    ensures forall k :: k in visited ==> k in start
  {
    hide Expired;
    forall k | k in gone ensures k in ExpiredKeys(start, cut) {
      assert k in gone + waiting;
    }
  }
}
