/** What every run of the aggregator keeps, whatever order its queue is visited in. */
module AggregateRuns {
  import opened Common
  import opened Aggregate

  // ---------------------------------------------------------------- invariant

  /** Pending records belong to the bucket's call, lie within search range of its
      key and fit its cap; a round's clock starts with its first record, no sooner
      than the respot interval after the bucket's last emission. */
  predicate BucketOk(cfg: Config, key: Key, b: Bucket, clock: int) {
    && |b.records| <= Max(cfg.maxRecords, 0)
    && (forall i :: 0 <= i < |b.records| ==>
          DxCall(b.records[i].spot) == key.call
          && Distance(b.records[i].spot.freq, key.nqrg) <= Max(cfg.searchKHz * 10, 0))
    && b.createdAt <= clock
    && (b.lastEmitAt.Some? ==> b.lastEmitAt.value <= clock)
    && (b.records != [] ==>
          b.createdAt == b.records[0].arrived
          && (b.lastEmitAt.Some? ==> b.createdAt - b.lastEmitAt.value >= cfg.respot))
  }

  ghost predicate BucketsOk(cfg: Config, st: State, clock: int) {
    && (forall k :: k in st.buckets ==> BucketOk(cfg, k, st.buckets[k], clock) && st.buckets[k].id < st.nextId)
    && (forall k :: k in st.buckets && st.buckets[k].records != [] ==> k in st.queue)
    && (forall j, k :: j in st.buckets && k in st.buckets && j != k ==> st.buckets[j].id != st.buckets[k].id)
  }

  ghost predicate StateOk(cfg: Config, st: State, clock: int) {
    && BucketsOk(cfg, st, clock)
    && |st.buckets| <= Max(cfg.maxEntries, 0)
    && ScoresOk(st.skimmers, cfg.maxDeviants)
  }

  /** An emission had enough origins, and either as many as are ever needed or had
      waited out the dwell or limbo window since its round's first record. */
  predicate EmissionOk(cfg: Config, e: Emission) {
    && e.origins >= cfg.minQuality
    && (e.origins >= cfg.maxQuality || e.at - e.firstAt >= Min(cfg.dwell, cfg.limbo))
    && e.quality == Min(e.origins, cfg.maxQuality)
  }

  predicate Spaced(cfg: Config, log: seq<Emission>) {
    forall i, j :: 0 <= i < j < |log| && log[i].id == log[j].id ==> log[j].at - log[i].at >= cfg.respot
  }

  /** Every emission of a bucket still held is no later than its lastEmitAt. */
  predicate Remembered(b: Bucket, log: seq<Emission>) {
    forall i :: 0 <= i < |log| && log[i].id == b.id ==> b.lastEmitAt.Some? && log[i].at <= b.lastEmitAt.value
  }

  ghost predicate LogOk(cfg: Config, st: State, log: seq<Emission>) {
    && (forall i :: 0 <= i < |log| ==> EmissionOk(cfg, log[i]) && log[i].id < st.nextId)
    && Spaced(cfg, log)
    && (forall k :: k in st.buckets ==> Remembered(st.buckets[k], log))
  }

  lemma ClockForward(cfg: Config, st: State, clock: int, now: int)
    requires StateOk(cfg, st, clock) && clock <= now
    ensures StateOk(cfg, st, now)
  {
  }

  // ---------------------------------------------------------------- steps

  /** Appending under a key keeps every bucket sound. */
  lemma AppendedOk(cfg: Config, st: State, key: Key, b: Bucket, s: Spot, now: int, log: seq<Emission>)
    requires StateOk(cfg, st, now) && LogOk(cfg, st, log)
    requires BucketOk(cfg, key, b, now) && b.id < st.nextId && Remembered(b, log)
    requires b.records == [] ==> b.createdAt == now
    requires b.records == [] && b.lastEmitAt.Some? ==> now - b.lastEmitAt.value >= cfg.respot
    requires b.records != [] ==> key in st.queue
    requires forall k :: k in st.buckets && k != key ==> st.buckets[k].id != b.id
    requires key in st.buckets || |st.buckets| < cfg.maxEntries
    requires DxCall(s) == key.call && Distance(s.freq, key.nqrg) <= Max(cfg.searchKHz * 10, 0)
    ensures StateOk(cfg, Appended(cfg, st, key, b, s, now), now)
    ensures LogOk(cfg, Appended(cfg, st, key, b, s, now), log)
  {
    hide DxCall;
    var r := b.(records := b.records + [NewRecord(s, b, now)]);
    assert |b.records| < cfg.maxRecords ==> BucketOk(cfg, key, r, now);
    CardUpdate(st.buckets, key, b);
    CardUpdate(st.buckets, key, r);
    if |b.records| < cfg.maxRecords {
      ReplacedOk(cfg, st, key, r, now, log);
    } else {
      ReplacedOk(cfg, st, key, b, now, log);
    }
  }

  lemma CardUpdate(bs: map<Key, Bucket>, key: Key, b: Bucket)
    ensures |bs[key := b]| == if key in bs then |bs| else |bs| + 1
  {
    assert bs[key := b].Keys == bs.Keys + {key};
  }

  /** Buckets stay sound when one is replaced, up to the replaced one being queued. */
  lemma ReplacedOk(cfg: Config, st: State, key: Key, r: Bucket, now: int, log: seq<Emission>)
    requires StateOk(cfg, st, now) && LogOk(cfg, st, log)
    requires BucketOk(cfg, key, r, now) && r.id < st.nextId && Remembered(r, log)
    requires forall k :: k in st.buckets && k != key ==> st.buckets[k].id != r.id
    ensures var t := st.(buckets := st.buckets[key := r], queue := st.queue + {key});
            BucketsOk(cfg, t, now) && LogOk(cfg, t, log)
    ensures r.records == [] || key in st.queue ==>
              BucketsOk(cfg, st.(buckets := st.buckets[key := r]), now)
    ensures LogOk(cfg, st.(buckets := st.buckets[key := r]), log)
  {
    hide BucketOk, EmissionOk, Remembered, Spaced;
  }

  lemma OpenNewOk(cfg: Config, st: State, key: Key, s: Spot, now: int, log: seq<Emission>)
    requires StateOk(cfg, st, now) && LogOk(cfg, st, log) && |st.buckets| < cfg.maxEntries
    requires DxCall(s) == key.call && s.freq == key.nqrg
    ensures var r := Appended(cfg, st.(nextId := st.nextId + 1), key, Bucket(st.nextId, now, None, 0, []), s, now);
            StateOk(cfg, r, now) && LogOk(cfg, r, log)
  {
    hide DxCall, EmissionOk, Appended, Spaced, ScoresOk;
    var t := st.(nextId := st.nextId + 1);
    assert BucketsOk(cfg, t, now) && LogOk(cfg, t, log);
    AppendedOk(cfg, t, key, Bucket(st.nextId, now, None, 0, []), s, now, log);
  }

  lemma OpenHeldOk(cfg: Config, st: State, key: Key, s: Spot, now: int, log: seq<Emission>)
    requires StateOk(cfg, st, now) && LogOk(cfg, st, log) && key in st.buckets
    requires var b := st.buckets[key];
             b.records == [] && b.lastEmitAt.Some? ==> now - b.lastEmitAt.value >= cfg.respot
    requires DxCall(s) == key.call && Distance(s.freq, key.nqrg) <= Max(cfg.searchKHz * 10, 0)
    ensures var r := Appended(cfg, st, key, Opened(st.buckets[key], now), s, now);
            StateOk(cfg, r, now) && LogOk(cfg, r, log)
  {
    hide DxCall, EmissionOk, Appended, Spaced, ScoresOk;
    var b := st.buckets[key];
    assert BucketOk(cfg, key, b, now) && Remembered(b, log);
    AppendedOk(cfg, st, key, Opened(b, now), s, now, log);
  }

  lemma IngestedOk(cfg: Config, startedAt: int, st: State, s: Spot, now: int, log: seq<Emission>)
    requires StateOk(cfg, st, now) && LogOk(cfg, st, log)
    ensures StateOk(cfg, Ingested(cfg, startedAt, st, s, now), now)
    ensures LogOk(cfg, Ingested(cfg, startedAt, st, s, now), log)
  {
    hide DxCall, StateOk, LogOk, Appended, Search;
    var call := DxCall(s);
    SearchNearest(st.buckets, call, s.freq, 0, cfg.searchKHz * 10);
    if !((cfg.inrush > 0 && now - startedAt < cfg.inrush) || call == []) {
      match FindKey(cfg, st.buckets, call, s.freq)
      case None =>
        if |st.buckets| < cfg.maxEntries { OpenNewOk(cfg, st, Key(call, s.freq), s, now, log); }
      case Some(k) =>
        var b := st.buckets[k];
        if !(b.records == [] && b.lastEmitAt.Some? && now - b.lastEmitAt.value < cfg.respot) {
          OpenHeldOk(cfg, st, k, s, now, log);
        }
    }
  }

  lemma DroppedOk(cfg: Config, st: State, key: Key, now: int, log: seq<Emission>)
    requires StateOk(cfg, st, now) && LogOk(cfg, st, log)
    ensures var t := st.(buckets := st.buckets - {key}, queue := st.queue - {key});
            StateOk(cfg, t, now) && LogOk(cfg, t, log)
  {
    hide BucketOk, EmissionOk, Remembered, Spaced, ScoresOk;
    var t := st.buckets - {key};
    assert t.Keys == st.buckets.Keys - {key};
  }

  /** The emission a ready bucket makes meets its conditions. */
  lemma EmissionMeets(cfg: Config, st: State, key: Key, now: int)
    requires StateOk(cfg, st, now) && key in st.buckets && st.buckets[key].records != []
    requires !Waits(cfg, st.buckets[key], now) && |Collapse(st.buckets[key].records)| >= cfg.minQuality
    ensures EmissionOk(cfg, EmissionOf(cfg, st, st.buckets[key], now))
    ensures EmissionOf(cfg, st, st.buckets[key], now).origins == |Origins(st.buckets[key].records)|
  {
    hide DxCall, Collapse, Origins, Best, Consensus;
    CollapseExact(st.buckets[key].records);
    assert BucketOk(cfg, key, st.buckets[key], now);
  }

  lemma SpacedSnoc(cfg: Config, log: seq<Emission>, b: Bucket, e: Emission)
    requires Spaced(cfg, log) && Remembered(b, log) && e.id == b.id
    requires b.lastEmitAt.Some? ==> e.at - b.lastEmitAt.value >= cfg.respot
    ensures Spaced(cfg, log + [e])
  {
  }

  lemma RememberedSnoc(log: seq<Emission>, b: Bucket, e: Emission)
    requires Remembered(b, log) && (e.id == b.id ==> b.lastEmitAt.Some? && e.at <= b.lastEmitAt.value)
    ensures Remembered(b, log + [e])
  {
  }

  /** The emitting bucket with its records gone and its new lastEmitAt. */
  predicate IsDone(done: Bucket, b: Bucket, now: int) {
    done.id == b.id && done.records == [] && done.lastEmitAt == Some(now) && done.createdAt == b.createdAt
  }

  /** The bucket map after an emission, whatever the bucket moved to or displaced. */
  ghost predicate Moved(bs: map<Key, Bucket>, r: map<Key, Bucket>, key: Key, done: Bucket) {
    && |r| <= |bs|
    && (forall k :: k in r ==> r[k] == done || (k in bs && k != key && r[k] == bs[k]))
    && (forall j, k :: j in r && k in r && r[j] == done && r[k] == done ==> j == k)
  }

  lemma RekeyedMoved(bs: map<Key, Bucket>, key: Key, done: Bucket, e: Emission)
    requires key in bs
    requires forall k :: k in bs && k != key ==> bs[k].id != done.id
    ensures Moved(bs, Rekeyed(bs, key, done, e), key, done)
  {
    hide DxCall;
    var to := Key(DxCall(e.best.spot), e.freq);
    CardUpdate(bs, key, done);
    var rest := bs - {key};
    assert rest.Keys == bs.Keys - {key};
    CardUpdate(rest, to, done);
  }

  lemma MovedBuckets(cfg: Config, st: State, key: Key, done: Bucket, r: map<Key, Bucket>, sk: Scores, now: int)
    requires BucketsOk(cfg, st, now) && key in st.buckets
    requires IsDone(done, st.buckets[key], now) && Moved(st.buckets, r, key, done)
    ensures BucketsOk(cfg, State(r, st.queue - {key}, sk, st.nextId), now)
  {
    hide DxCall;
    var t := State(r, st.queue - {key}, sk, st.nextId);
    forall k | k in r ensures BucketOk(cfg, k, r[k], now) && r[k].id < st.nextId {
      assert BucketOk(cfg, key, st.buckets[key], now);
      if r[k] != done { assert BucketOk(cfg, k, st.buckets[k], now); }
    }
    forall j, k | j in r && k in r && j != k ensures r[j].id != r[k].id {
      if r[j] == done || r[k] == done { assert done.id == st.buckets[key].id; }
    }
  }

  lemma MovedLog(cfg: Config, st: State, key: Key, done: Bucket, r: map<Key, Bucket>, sk: Scores, now: int,
                 log: seq<Emission>, e: Emission)
    requires BucketsOk(cfg, st, now) && LogOk(cfg, st, log) && key in st.buckets
    requires st.buckets[key].records != []
    requires IsDone(done, st.buckets[key], now) && Moved(st.buckets, r, key, done)
    requires e.id == done.id && e.at == now && EmissionOk(cfg, e)
    ensures LogOk(cfg, State(r, st.queue - {key}, sk, st.nextId), log + [e])
  {
    hide EmissionOk;
    var b := st.buckets[key];
    assert BucketOk(cfg, key, b, now) && Remembered(b, log);
    SpacedSnoc(cfg, log, b, e);
    forall k | k in r ensures Remembered(r[k], log + [e]) {
      if r[k] == done {
        assert Remembered(done, log);
      } else {
        assert Remembered(st.buckets[k], log);
      }
      RememberedSnoc(log, r[k], e);
    }
    forall i | 0 <= i < |log + [e]| ensures EmissionOk(cfg, (log + [e])[i]) && (log + [e])[i].id < st.nextId {
      if i < |log| { assert (log + [e])[i] == log[i]; }
    }
  }

  lemma EmittedOk(cfg: Config, st: State, key: Key, now: int, log: seq<Emission>)
    requires StateOk(cfg, st, now) && LogOk(cfg, st, log) && cfg.maxDeviants >= 0
    requires key in st.buckets && st.buckets[key].records != []
    requires !Waits(cfg, st.buckets[key], now) && |Collapse(st.buckets[key].records)| >= cfg.minQuality
    ensures var b := st.buckets[key];
            StateOk(cfg, Emitted(cfg, st, key, b, now), now)
            && LogOk(cfg, Emitted(cfg, st, key, b, now), log + [EmissionOf(cfg, st, b, now)])
  {
    var b := st.buckets[key];
    var e := EmissionOf(cfg, st, b, now);
    EmissionMeets(cfg, st, key, now);
    hide DxCall, Collapse, Best, Consensus, BucketOk, EmissionOk, Rescored, Waits, Moved, Rekeyed, Remembered, Spaced;
    var done := b.(records := [], lastEmitAt := Some(now), lastQuality := Max(b.lastQuality, e.quality));
    var r := Rekeyed(st.buckets, key, done, e);
    var sk := Rescored(st.skimmers, Collapse(b.records), e.freq, now, cfg.maxDeviants);
    RescoredOk(st.skimmers, Collapse(b.records), e.freq, now, cfg.maxDeviants);
    RekeyedMoved(st.buckets, key, done, e);
    MovedCard(st.buckets, r, key, done);
    MovedBuckets(cfg, st, key, done, r, sk, now);
    MovedLog(cfg, st, key, done, r, sk, now, log, e);
  }

  lemma MovedCard(bs: map<Key, Bucket>, r: map<Key, Bucket>, key: Key, done: Bucket)
    requires Moved(bs, r, key, done)
    ensures |r| <= |bs|
  {
  }

  lemma ProcessedOk(cfg: Config, st: State, key: Key, now: int, log: seq<Emission>)
    requires StateOk(cfg, st, now) && LogOk(cfg, st, log) && cfg.maxDeviants >= 0
    ensures var (t, es) := Processed(cfg, st, key, now);
            StateOk(cfg, t, now) && LogOk(cfg, t, log + es)
  {
    hide DxCall, Collapse, BucketOk, EmissionOk, Waits, Remembered, Spaced, Emitted, EmissionOf, ScoresOk;
    assert log + [] == log;
    DroppedOk(cfg, st, key, now, log);
    if key in st.buckets {
      var b := st.buckets[key];
      if b.records != [] && !Waits(cfg, b, now) && |Collapse(b.records)| >= cfg.minQuality {
        EmittedOk(cfg, st, key, now, log);
      }
    } else {
      assert st.buckets - {key} == st.buckets;
    }
  }

  lemma {:induction false} ProcessedAllOk(cfg: Config, st: State, keys: seq<Key>, now: int, log: seq<Emission>)
    requires StateOk(cfg, st, now) && LogOk(cfg, st, log) && cfg.maxDeviants >= 0
    ensures var (t, es) := ProcessedAll(cfg, st, keys, now);
            StateOk(cfg, t, now) && LogOk(cfg, t, log + es)
  {
    hide StateOk, LogOk, Processed;
    if keys == [] {
      assert log + [] == log;
    } else {
      var n := |keys| - 1;
      ProcessedAllOk(cfg, st, keys[..n], now, log);
      var (t, es) := ProcessedAll(cfg, st, keys[..n], now);
      ProcessedOk(cfg, t, keys[n], now, log + es);
      var (u, fs) := Processed(cfg, t, keys[n], now);
      assert log + es + fs == log + (es + fs);
    }
  }

  lemma TickedOk(cfg: Config, st: State, keys: seq<Key>, now: int, log: seq<Emission>)
    requires StateOk(cfg, st, now) && LogOk(cfg, st, log) && cfg.maxDeviants >= 0
    ensures var (t, es) := Ticked(cfg, st, keys, now);
            StateOk(cfg, t, now) && LogOk(cfg, t, log + es)
  {
    hide BucketOk, EmissionOk, Remembered, Spaced, ProcessedAll;
    ProcessedAllOk(cfg, st, keys, now, log);
  }

  // ---------------------------------------------------------------- bounded waiting

  /** What a pass leaves of the buckets it started with: those that still hold records are
      untouched, and the visited ones among them wait. */
  ghost predicate Settled(cfg: Config, before: map<Key, Bucket>, after: map<Key, Bucket>, visited: seq<Key>, now: int) {
    forall k :: k in after && after[k].records != [] ==>
      k in before && after[k] == before[k] && (k in visited ==> Waits(cfg, after[k], now))
  }

  lemma ProcessedSettles(cfg: Config, st: State, key: Key, now: int)
    ensures Settled(cfg, st.buckets, Processed(cfg, st, key, now).0.buckets, [key], now)
  {
    hide Waits, Collapse, Rescored, EmissionOf;
  }

  lemma SettledNext(cfg: Config, a: map<Key, Bucket>, b: map<Key, Bucket>, c: map<Key, Bucket>,
                    visited: seq<Key>, key: Key, now: int)
    requires Settled(cfg, a, b, visited, now) && Settled(cfg, b, c, [key], now)
    ensures Settled(cfg, a, c, visited + [key], now)
  {
    hide Waits;
  }

  lemma {:induction false} PassSettles(cfg: Config, st: State, keys: seq<Key>, now: int)
    ensures Settled(cfg, st.buckets, ProcessedAll(cfg, st, keys, now).0.buckets, keys, now)
  {
    hide Settled, Processed;
    if keys == [] {
      SettledNone(cfg, st.buckets, now);
    } else {
      var n := |keys| - 1;
      PassSettles(cfg, st, keys[..n], now);
      var t := ProcessedAll(cfg, st, keys[..n], now).0;
      ProcessedSettles(cfg, t, keys[n], now);
      SettledNext(cfg, st.buckets, t.buckets, Processed(cfg, t, keys[n], now).0.buckets, keys[..n], keys[n], now);
      assert keys[..n] + [keys[n]] == keys;
    }
  }

  lemma SettledNone(cfg: Config, bs: map<Key, Bucket>, now: int)
    ensures Settled(cfg, bs, bs, [], now)
  {
  }

  /** Waiting is bounded: after a pass over every queued key, in any order and with any re-keying,
      a bucket that still holds records is younger than the limbo time. */
  lemma WaitBounded(cfg: Config, st: State, keys: seq<Key>, now: int, k: Key)
    requires StateOk(cfg, st, now) && forall q :: q in st.queue ==> q in keys
    ensures var t := Ticked(cfg, st, keys, now).0;
            k in t.buckets && t.buckets[k].records != [] ==> now - t.buckets[k].createdAt < cfg.limbo
  {
    PassSettles(cfg, st, keys, now);
    hide ProcessedAll, BucketOk, Collapse, ScoresOk;
  }

  // ---------------------------------------------------------------- runs

  /** A spot arrives, or the ticker fires and the queue's keys come in some order. */
  datatype Event = Arrive(spot: Spot, now: int) | Tick(keys: seq<Key>, now: int)

  ghost function Run(cfg: Config, startedAt: int, events: seq<Event>): (r: (State, seq<Emission>)) {
    if events == [] then (EMPTY, []) else
      var (st, log) := Run(cfg, startedAt, events[..|events| - 1]);
      match events[|events| - 1]
      case Arrive(s, now) => (Ingested(cfg, startedAt, st, s, now), log)
      case Tick(keys, now) =>
        var (t, es) := Ticked(cfg, st, keys, now);
        (t, log + es)
  }

  predicate ClockNondecreasing(events: seq<Event>) {
    forall i, j :: 0 <= i < j < |events| ==> events[i].now <= events[j].now
  }

  /** Main result: in every run with a nondecreasing clock the state invariant holds
      at its end, every emission met its quality and waiting conditions, and two
      emissions of one bucket are at least the respot interval apart even when the
      bucket was re-keyed between them. */
  lemma {:induction false} RunOk(cfg: Config, startedAt: int, events: seq<Event>)
    requires cfg.maxDeviants >= 0 && ClockNondecreasing(events)
    ensures var (st, log) := Run(cfg, startedAt, events);
            && (events != [] ==> StateOk(cfg, st, events[|events| - 1].now))
            && LogOk(cfg, st, log)
            && (forall i :: 0 <= i < |log| ==> EmissionOk(cfg, log[i]))
            && Spaced(cfg, log)
  {
    hide StateOk, EmissionOk, Spaced, Ingested, Ticked;
    if events == [] {
      EmptyOk(cfg, 0);
    } else {
      var n := |events| - 1;
      var now := events[n].now;
      RunOk(cfg, startedAt, events[..n]);
      var (st, log) := Run(cfg, startedAt, events[..n]);
      if n == 0 {
        EmptyOk(cfg, now);
      } else {
        ClockForward(cfg, st, events[n - 1].now, now);
      }
      match events[n]
      case Arrive(s, _) => IngestedOk(cfg, startedAt, st, s, now, log);
      case Tick(keys, _) => TickedOk(cfg, st, keys, now, log);
    }
  }

  lemma EmptyOk(cfg: Config, now: int)
    ensures StateOk(cfg, EMPTY, now) && LogOk(cfg, EMPTY, [])
  {
  }
}
