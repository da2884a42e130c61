/** What the aggregator does with a spot, a score and a ready bucket, in terms of the spots and
    buckets themselves. */
module AggregateLaws {
  import opened Common
  import opened Text
  import opened Aggregate
  import opened AggregateRuns

  // ---------------------------------------------------------------- where a spot goes

  /** The call a spot is filed under: the normalized one, else the raw one. */
  predicate IsCall(s: Spot, call: bytes) {
    call == if TrimSpace(s.dxCallNorm) != [] then TrimSpace(s.dxCallNorm) else TrimSpace(s.dxCall)
  }

  /** How far from a bucket's frequency a spot may be, in units of 100 Hz. */
  function Reach(cfg: Config): (d: nat) {
    if cfg.searchKHz < 0 then 0 else 10 * cfg.searchKHz
  }

  predicate Near(cfg: Config, bs: map<Key, Bucket>, call: bytes, freq: int, k: Key) {
    k in bs && k.call == call && freq - Reach(cfg) <= k.nqrg <= freq + Reach(cfg)
  }

  /** k is the near bucket closest to the frequency, the upper one of two equally close. */
  ghost predicate Nearest(cfg: Config, bs: map<Key, Bucket>, call: bytes, freq: int, k: Key) {
    Near(cfg, bs, call, freq, k)
    && forall q :: Near(cfg, bs, call, freq, q) && q != k ==>
         var d, e := k.nqrg - freq, q.nqrg - freq;
         var dist, other := (if d < 0 then -d else d), (if e < 0 then -e else e);
         dist < other || (dist == other && d > e)
  }

  /** The bucket a spot belongs to: the nearest one, or a new one at its own frequency. */
  ghost predicate Target(cfg: Config, bs: map<Key, Bucket>, call: bytes, freq: int, k: Key) {
    Nearest(cfg, bs, call, freq, k)
    || (k == Key(call, freq) && forall q :: !Near(cfg, bs, call, freq, q))
  }

  lemma FindsTarget(cfg: Config, bs: map<Key, Bucket>, call: bytes, freq: int, k: Key)
    requires Target(cfg, bs, call, freq, k)
    ensures FindKey(cfg, bs, call, freq) == if k in bs then Some(k) else None
  {
    SearchNearest(bs, call, freq, 0, cfg.searchKHz * 10);
    hide Search;
    match FindKey(cfg, bs, call, freq)
    case None => assert forall q :: !Near(cfg, bs, call, freq, q);
    case Some(f) => assert Near(cfg, bs, call, freq, f);
  }

  function RecordsOf(bs: map<Key, Bucket>, k: Key): (rs: seq<Record>) {
    if k in bs then bs[k].records else []
  }

  function LastEmission(bs: map<Key, Bucket>, k: Key): (t: Option<int>) {
    if k in bs then bs[k].lastEmitAt else None
  }

  /** A spot is taken: the start-up silence is over, it has a call, its bucket is not in the quiet
      time after an emission, there is room for a new bucket if it needs one, and its bucket is
      not full. */
  ghost predicate Taken(cfg: Config, startedAt: int, st: State, call: bytes, k: Key, now: int) {
    && (cfg.inrush <= 0 || now >= startedAt + cfg.inrush)
    && call != []
    && (k in st.buckets && st.buckets[k].records == [] && st.buckets[k].lastEmitAt.Some? ==>
          now >= st.buckets[k].lastEmitAt.value + cfg.respot)
    && (k !in st.buckets ==> |st.buckets| < cfg.maxEntries)
    && |RecordsOf(st.buckets, k)| < cfg.maxRecords
  }

  /** Main ingest result: a spot that is taken becomes the last record of its bucket, which is
      queued; every other bucket is as it was. A spot that is not taken changes no record, no
      emission time and nothing in the queue. */
  lemma IngestLaw(cfg: Config, startedAt: int, st: State, s: Spot, now: int, call: bytes, k: Key)
    requires IsCall(s, call) && Target(cfg, st.buckets, call, s.freq, k)
    ensures var r := Ingested(cfg, startedAt, st, s, now);
            && r.skimmers == st.skimmers
            && (forall q :: q != k ==> (q in r.buckets <==> q in st.buckets)
                                       && (q in st.buckets ==> r.buckets[q] == st.buckets[q]))
            && LastEmission(r.buckets, k) == LastEmission(st.buckets, k)
            && if Taken(cfg, startedAt, st, call, k, now) then
                 && k in r.buckets && r.queue == st.queue + {k}
                 && r.buckets[k].records == RecordsOf(st.buckets, k)
                    + [Record(s, if s.time.Some? then s.time.value else now,
                              LastEmission(st.buckets, k).Some?, now)]
                 && r.buckets[k].createdAt == (if RecordsOf(st.buckets, k) == [] then now
                                               else st.buckets[k].createdAt)
               else
                 RecordsOf(r.buckets, k) == RecordsOf(st.buckets, k) && r.queue == st.queue
  {
    IngestedAt(cfg, startedAt, st, s, now, call, k);
    hide Ingested, TrimSpace, Target;
    if k in st.buckets { assert st.buckets[k := st.buckets[k]] == st.buckets; }
  }

  /** Ingest by the bucket the spot belongs to. */
  lemma IngestedAt(cfg: Config, startedAt: int, st: State, s: Spot, now: int, call: bytes, k: Key)
    requires IsCall(s, call) && Target(cfg, st.buckets, call, s.freq, k)
    ensures Ingested(cfg, startedAt, st, s, now)
            == if (cfg.inrush > 0 && now - startedAt < cfg.inrush) || call == [] then st
               else if k !in st.buckets then
                 if |st.buckets| >= cfg.maxEntries then st
                 else Appended(cfg, st.(nextId := st.nextId + 1), k, Bucket(st.nextId, now, None, 0, []), s, now)
               else
                 var b := st.buckets[k];
                 if b.records == [] && b.lastEmitAt.Some? && now - b.lastEmitAt.value < cfg.respot then st
                 else Appended(cfg, st, k, Opened(b, now), s, now)
  {
    FindsTarget(cfg, st.buckets, call, s.freq, k);
    assert k !in st.buckets ==> k == Key(call, s.freq);
    hide FindKey, TrimSpace, Target, Appended, Opened;
  }

  // ---------------------------------------------------------------- scores and votes

  /** Agreeing with the consensus never lowers a skimmer's score and raises it while there is
      room; disagreeing does the opposite. */
  lemma AgreementRaises(s: Score, now: int, maxDeviants: int)
    requires ScoreOk(s, maxDeviants)
    ensures var up, down := Judged(s, true, now, maxDeviants), Judged(s, false, now, maxDeviants);
            && down.score <= s.score <= up.score
            && (s.good < maxDeviants || s.bad > 0 ==> up.score > s.score)
            && (s.bad < maxDeviants || s.good > 0 ==> down.score < s.score)
            && up.lastIn == Some(now) == down.lastIn
  {
  }

  /** A higher score weighs more: ten per point from one point on, one below that. */
  lemma HigherScoreWeighsMore(sk: Scores, a: Record, b: Record)
    ensures var x, y := ScoreOf(sk, SkimKey(a)).score, ScoreOf(sk, SkimKey(b)).score;
            && (x <= y ==> Weight(sk, a) <= Weight(sk, b))
            && (x < y && y >= 1 ==> Weight(sk, a) < Weight(sk, b))
            && (x >= 1 ==> Weight(sk, a) == 10 * x) && (x < 1 ==> Weight(sk, a) == 1)
  {
  }

  /** Votes add up record by record, each for the frequency it reports. */
  lemma VotesAddUp(rs: seq<Record>, r: Record, sk: Scores, f: int)
    ensures VoteFor([], sk, f) == 0
    ensures VoteFor(rs + [r], sk, f) == VoteFor(rs, sk, f) + if r.spot.freq == f then Weight(sk, r) else 0
  {
    assert (rs + [r])[..|rs|] == rs;
  }

  /** The consensus is a reported frequency no other has more votes than, and the lowest of those
      with as many. */
  lemma ConsensusMeans(rs: seq<Record>, sk: Scores, f: int, i: nat)
    requires IsConsensus(rs, sk, f) && i < |rs|
    ensures exists j :: 0 <= j < |rs| && rs[j].spot.freq == f
    ensures var g := rs[i].spot.freq;
            VoteFor(rs, sk, g) <= VoteFor(rs, sk, f) && (VoteFor(rs, sk, g) == VoteFor(rs, sk, f) ==> f <= g)
  {
    hide VoteFor;
    assert Voted(rs, rs[i].spot.freq);
  }

  /** The best record is reported if any is, then has the strongest report, then is the latest. */
  lemma BestMeans(rs: seq<Record>, r: Record)
    requires r in rs
    ensures var b := Best(rs);
            && b in rs
            && (r.spot.hasReport ==> b.spot.hasReport && b.spot.report >= r.spot.report
                                     && (b.spot.report == r.spot.report ==> b.when >= r.when))
            && (!b.spot.hasReport ==> b.when >= r.when)
  {
    assert AtLeast(Best(rs), r);
  }

  /** The origins of records are exactly the ones they name. */
  lemma OriginsMeans(rs: seq<Record>, o: bytes)
    ensures o in Origins(rs) <==> exists i :: 0 <= i < |rs| && rs[i].spot.origin == o
  {
  }

  /** A skimmer not heard before counts one point. */
  lemma UnknownSkimmerCounts(sk: Scores, r: Record)
    requires SkimmerKey(r.spot.origin, r.spot.band) !in sk
    ensures Weight(sk, r) == 10
  {
  }

  /** Exactly the scores not updated for longer than the cache time are forgotten. */
  lemma ForgottenExact(cfg: Config, sk: Scores, now: int, k: SkimmerKey)
    ensures k in Forgotten(cfg, sk, now) <==> k in sk && (sk[k].lastIn.None? || now <= sk[k].lastIn.value + cfg.cache)
    ensures k in Forgotten(cfg, sk, now) ==> Forgotten(cfg, sk, now)[k] == sk[k]
  {
  }

  // ---------------------------------------------------------------- one queued key

  /** How many skimmers a bucket's records come from. */
  function OriginCount(b: Bucket): (n: nat) { |Origins(b.records)| }

  /** A bucket has waited long enough, or has as many origins as are ever needed. */
  predicate Ripe(cfg: Config, b: Bucket, now: int) {
    OriginCount(b) >= cfg.maxQuality || now >= b.createdAt + cfg.dwell || now >= b.createdAt + cfg.limbo
  }

  /** Main law of one queued key. A bucket with records is emitted if and only if it is ripe and
      has enough origins; it is dropped if and only if it is ripe, lacks origins and limbo is
      over; otherwise nothing changes. An empty bucket goes once its last emission is older than
      the cache time. */
  lemma ProcessLaw(cfg: Config, st: State, key: Key, now: int)
    requires key in st.buckets
    ensures var b := st.buckets[key];
            var (r, es) := Processed(cfg, st, key, now);
            if b.records == [] then
              es == [] && (key !in r.buckets <==> b.lastEmitAt.None? || now > b.lastEmitAt.value + cfg.cache)
              && (key in r.buckets ==> r == st)
            else if Ripe(cfg, b, now) && OriginCount(b) >= cfg.minQuality then
              |es| == 1 && es[0].id == b.id && es[0].at == now && es[0].origins == OriginCount(b)
              && es[0].quality == Min(OriginCount(b), cfg.maxQuality)
              && IsConsensus(Collapse(b.records), st.skimmers, es[0].freq)
              && es[0].best in b.records && key !in r.queue
            else if OriginCount(b) < cfg.minQuality && now >= b.createdAt + cfg.limbo then
              es == [] && key !in r.buckets && key !in r.queue
            else r == st && es == []
  {
    var b := st.buckets[key];
    CollapseExact(b.records);
    hide Collapse, Origins, Rescored, Best, Consensus, IsConsensus;
  }

  /** An emitted bucket ends under its call and consensus frequency, empty, and remembers when. */
  lemma EmittedMoves(cfg: Config, st: State, key: Key, now: int)
    requires key in st.buckets && st.buckets[key].records != []
    ensures var b, e := st.buckets[key], EmissionOf(cfg, st, st.buckets[key], now);
            var r := Emitted(cfg, st, key, b, now);
            var to := if DxCall(e.best.spot) == [] then key else Key(DxCall(e.best.spot), e.freq);
            && to in r.buckets && r.buckets[to].id == b.id && r.buckets[to].records == []
            && r.buckets[to].lastEmitAt == Some(now)
            && (to != key ==> key !in r.buckets)
            && r.skimmers == Rescored(st.skimmers, Collapse(b.records), e.freq, now, cfg.maxDeviants)
  {
    hide Collapse, Rescored, Best, Consensus, DxCall;
  }

  // ---------------------------------------------------------------- progress

  /** Arrivals of one call, all within reach of the first. */
  ghost predicate Together(cfg: Config, startedAt: int, arrivals: seq<Event>, call: bytes) {
    && |arrivals| <= cfg.maxRecords && cfg.maxEntries >= 1 && call != []
    && (forall i :: 0 <= i < |arrivals| ==> arrivals[i].Arrive?)
    && forall i :: 0 <= i < |arrivals| ==>
         && IsCall(arrivals[i].spot, call)
         && (cfg.inrush <= 0 || arrivals[i].now >= startedAt + cfg.inrush)
         && arrivals[i].spot.freq - Reach(cfg) <= arrivals[0].spot.freq <= arrivals[i].spot.freq + Reach(cfg)
  }

  function Arrived(e: Event): (r: Record)
    requires e.Arrive?
  {
    Record(e.spot, if e.spot.time.Some? then e.spot.time.value else e.now, false, e.now)
  }

  ghost function Gathered(arrivals: seq<Event>): (rs: seq<Record>)
    requires forall i :: 0 <= i < |arrivals| ==> arrivals[i].Arrive?
    ensures |rs| == |arrivals|
  {
    if arrivals == [] then [] else Gathered(arrivals[..|arrivals| - 1]) + [Arrived(arrivals[|arrivals| - 1])]
  }

  /** The state holds exactly these arrivals, in order, in one queued bucket at the frequency of
      the first. */
  ghost predicate InOne(st: State, arrivals: seq<Event>, call: bytes)
    requires arrivals != [] && forall i :: 0 <= i < |arrivals| ==> arrivals[i].Arrive?
  {
    var k := Key(call, arrivals[0].spot.freq);
    && st.buckets.Keys == {k} && st.queue == {k} && st.skimmers == map[]
    && st.buckets[k].records == Gathered(arrivals)
    && st.buckets[k].createdAt == arrivals[0].now && st.buckets[k].lastEmitAt.None?
  }

  /** They all gather there. */
  lemma {:induction false} Gathers(cfg: Config, startedAt: int, arrivals: seq<Event>, call: bytes)
    requires Together(cfg, startedAt, arrivals, call) && arrivals != []
    ensures var (st, log) := Run(cfg, startedAt, arrivals); InOne(st, arrivals, call) && log == []
    decreases |arrivals|
  {
    hide Ingested, TrimSpace, InOne;
    var n := |arrivals| - 1;
    var less := arrivals[..n];
    if n == 0 {
      assert less == [];
      assert Run(cfg, startedAt, less) == (EMPTY, []);
      GatherFirst(cfg, startedAt, arrivals[0], call);
      assert arrivals == [arrivals[0]];
    } else {
      Gathers(cfg, startedAt, less, call);
      GatherNext(cfg, startedAt, Run(cfg, startedAt, less).0, arrivals, call);
    }
  }

  lemma GatherFirst(cfg: Config, startedAt: int, e: Event, call: bytes)
    requires e.Arrive? && Together(cfg, startedAt, [e], call)
    ensures InOne(Ingested(cfg, startedAt, EMPTY, e.spot, e.now), [e], call)
  {
    hide Ingested, TrimSpace, Target;
    var k := Key(call, e.spot.freq);
    assert [e][0] == e;
    FirstTarget(cfg, call, e.spot.freq);
    IngestLaw(cfg, startedAt, EMPTY, e.spot, e.now, call, k);
    assert Gathered([e]) == [Arrived(e)];
  }

  lemma GatherNext(cfg: Config, startedAt: int, st: State, arrivals: seq<Event>, call: bytes)
    requires Together(cfg, startedAt, arrivals, call) && |arrivals| > 1
    requires InOne(st, arrivals[..|arrivals| - 1], call)
    ensures var e := arrivals[|arrivals| - 1];
            InOne(Ingested(cfg, startedAt, st, e.spot, e.now), arrivals, call)
  {
    hide Ingested, TrimSpace, Target;
    var e, k := arrivals[|arrivals| - 1], Key(call, arrivals[0].spot.freq);
    OnlyTarget(cfg, st.buckets, call, e.spot.freq, k);
    IngestLaw(cfg, startedAt, st, e.spot, e.now, call, k);
    assert |st.buckets| == 1;
  }

  lemma FirstTarget(cfg: Config, call: bytes, freq: int)
    ensures Target(cfg, map[], call, freq, Key(call, freq))
  {
  }

  lemma OnlyTarget(cfg: Config, bs: map<Key, Bucket>, call: bytes, freq: int, k: Key)
    requires bs.Keys == {k} && Near(cfg, bs, call, freq, k)
    ensures Target(cfg, bs, call, freq, k)
  {
    assert forall q :: Near(cfg, bs, call, freq, q) ==> q in bs.Keys;
  }

  /** Main progress result: spots of one call within reach of the first, from enough different
      skimmers, leave as exactly one emission at the first tick at or after the dwell time, and it
      carries their consensus frequency. */
  lemma Progress(cfg: Config, startedAt: int, arrivals: seq<Event>, call: bytes, now: int)
    requires Together(cfg, startedAt, arrivals, call) && arrivals != []
    requires |Origins(Gathered(arrivals))| >= cfg.minQuality && now >= arrivals[0].now + cfg.dwell
    ensures var tick := Tick([Key(call, arrivals[0].spot.freq)], now);
            var log := Run(cfg, startedAt, arrivals + [tick]).1;
            && |log| == 1 && log[0].at == now && log[0].origins == |Origins(Gathered(arrivals))|
            && IsConsensus(Collapse(Gathered(arrivals)), map[], log[0].freq)
            && log[0].best in Gathered(arrivals)
  {
    assert arrivals[0].Arrive?;
    hide Together, Ingested, Processed, Collapse, IsConsensus, Origins;
    var k := Key(call, arrivals[0].spot.freq);
    var tick := Tick([k], now);
    Gathers(cfg, startedAt, arrivals, call);
    var (st, log) := Run(cfg, startedAt, arrivals);
    assert (arrivals + [tick])[..|arrivals|] == arrivals;
    ProcessLaw(cfg, st, k, now);
    assert [k][..0] == [];
    assert ProcessedAll(cfg, st, [], now) == (st, []);
    var (u, es) := Processed(cfg, st, k, now);
    assert ProcessedAll(cfg, st, [k], now) == (u, [] + es);
    assert [] + es == es && log + es == es;
  }
}
