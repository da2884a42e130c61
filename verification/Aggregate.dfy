/** The skimmer aggregator as a state machine: spots gather in buckets, wait out a
    dwell or limbo window, and leave as one consolidated emission. Frequencies are
    integers in units of 100 Hz, vote weights are scaled by ten. */
module Aggregate {
  import opened Common
  import opened Text

  datatype Config = Config(
    dwell: int, limbo: int, respot: int, cache: int, minQuality: int, maxQuality: int,
    searchKHz: int, maxDeviants: int, inrush: int, maxEntries: int, maxRecords: int)

  /** The spot fields the aggregator reads; origin has its SSID collapsed when so
      configured, band is the normalized band or the one its frequency implies. */
  datatype Spot = Spot(
    dxCallNorm: bytes, dxCall: bytes, origin: bytes, band: bytes,
    freq: int, report: int, hasReport: bool, time: Option<int>)

  /** arrived is the clock at ingest, which the source keeps only as its bucket's createdAt. */
  datatype Record = Record(spot: Spot, when: int, respot: bool, arrived: int)

  datatype Key = Key(call: bytes, nqrg: int)

  /** id stands for the identity of the bucket object across re-keying. */
  datatype Bucket = Bucket(id: nat, createdAt: int, lastEmitAt: Option<int>, lastQuality: int, records: seq<Record>)

  datatype SkimmerKey = SkimmerKey(origin: bytes, band: bytes)

  datatype Score = Score(score: int, good: int, bad: int, lastIn: Option<int>)

  type Scores = map<SkimmerKey, Score>

  datatype State = State(buckets: map<Key, Bucket>, queue: set<Key>, skimmers: Scores, nextId: nat)

  /** What leaves the aggregator, with the facts its release depended on: how many
      distinct origins it had and when its round's first record arrived. */
  datatype Emission = Emission(id: nat, at: int, origins: nat, firstAt: int, quality: int, freq: int, best: Record)

  const EMPTY := State(map[], {}, map[], 0)

  function DxCall(s: Spot): (c: bytes) {
    var norm := TrimSpace(s.dxCallNorm);
    if norm != [] then norm else TrimSpace(s.dxCall)
  }

  // ---------------------------------------------------------------- one origin, one record

  function Origins(rs: seq<Record>): (s: set<bytes>) {
    set i | 0 <= i < |rs| :: rs[i].spot.origin
  }

  /** collapseByOrigin: the first record of every origin. */
  function Collapse(rs: seq<Record>): (out: seq<Record>) {
    if rs == [] then [] else
      var out := Collapse(rs[..|rs| - 1]);
      var r := rs[|rs| - 1];
      if r.spot.origin in Origins(out) then out else out + [r]
  }

  predicate DistinctOrigins(rs: seq<Record>) {
    forall i, j :: 0 <= i < j < |rs| ==> rs[i].spot.origin != rs[j].spot.origin
  }

  lemma OriginsSnoc(rs: seq<Record>, r: Record)
    ensures Origins(rs + [r]) == Origins(rs) + {r.spot.origin}
  {
    var all := rs + [r];
    assert all[|rs|] == r;
    forall o | o in Origins(rs) ensures o in Origins(all) {
      var i :| 0 <= i < |rs| && rs[i].spot.origin == o;
      assert all[i].spot.origin == o;
    }
  }

  lemma {:induction false} DistinctOriginsCount(rs: seq<Record>)
    requires DistinctOrigins(rs)
    ensures |Origins(rs)| == |rs|
  {
    if rs == [] {
      assert Origins(rs) == {};
    } else {
      var n := |rs| - 1;
      DistinctOriginsCount(rs[..n]);
      OriginsSnoc(rs[..n], rs[n]);
      assert rs == rs[..n] + [rs[n]];
    }
  }

  lemma {:induction false} CollapseOrigins(rs: seq<Record>)
    ensures Origins(Collapse(rs)) == Origins(rs)
    ensures DistinctOrigins(Collapse(rs))
  {
    if rs == [] {
      assert Origins(rs) == {};
    } else {
      var n := |rs| - 1;
      var t := Collapse(rs[..n]);
      CollapseOrigins(rs[..n]);
      OriginsSnoc(rs[..n], rs[n]);
      OriginsSnoc(t, rs[n]);
      assert rs == rs[..n] + [rs[n]];
      if rs[n].spot.origin !in Origins(t) { DistinctSnoc(t, rs[n]); }
    }
  }

  lemma DistinctSnoc(rs: seq<Record>, r: Record)
    requires DistinctOrigins(rs) && r.spot.origin !in Origins(rs)
    ensures DistinctOrigins(rs + [r])
  {
    forall i | 0 <= i < |rs| ensures rs[i].spot.origin in Origins(rs) {}
  }

  lemma {:induction false} CollapseMembers(rs: seq<Record>)
    ensures forall r :: r in Collapse(rs) ==> r in rs
    ensures rs != [] ==> Collapse(rs) != [] && Collapse(rs)[0] == rs[0]
  {
    if rs != [] {
      var n := |rs| - 1;
      CollapseMembers(rs[..n]);
      assert rs == rs[..n] + [rs[n]];
      assert n == 0 ==> Origins(Collapse(rs[..n])) == {};
    }
  }

  /** The collapsed records carry each origin once, so their number is the number
      of distinct origins, and they are drawn from the bucket. */
  lemma CollapseExact(rs: seq<Record>)
    ensures |Collapse(rs)| == |Origins(rs)|
    ensures DistinctOrigins(Collapse(rs)) && Origins(Collapse(rs)) == Origins(rs)
    ensures forall r :: r in Collapse(rs) ==> r in rs
    ensures rs != [] ==> Collapse(rs) != [] && Collapse(rs)[0] == rs[0]
  {
    CollapseOrigins(rs);
    CollapseMembers(rs);
    DistinctOriginsCount(Collapse(rs));
  }

  // ---------------------------------------------------------------- consensus

  function SkimKey(r: Record): (k: SkimmerKey) { SkimmerKey(r.spot.origin, r.spot.band) }

  const NEW_SCORE := Score(1, 1, 0, None)

  function ScoreOf(sk: Scores, k: SkimmerKey): (s: Score) { if k in sk then sk[k] else NEW_SCORE }

  /** Ten times max(score, 0.1). */
  function Weight(sk: Scores, r: Record): (w: nat)
    ensures w > 0
  {
    var s := ScoreOf(sk, SkimKey(r)).score;
    if s < 1 then 1 else 10 * s
  }

  /** The total weight behind one frequency. */
  function VoteFor(rs: seq<Record>, sk: Scores, f: int): (v: nat) {
    if rs == [] then 0 else
      VoteFor(rs[..|rs| - 1], sk, f)
      + (if rs[|rs| - 1].spot.freq == f then Weight(sk, rs[|rs| - 1]) else 0)
  }

  predicate Voted(rs: seq<Record>, f: int) {
    exists i :: 0 <= i < |rs| && rs[i].spot.freq == f
  }

  /** f beats g: more weight, or as much at a lower frequency. */
  predicate Beats(rs: seq<Record>, sk: Scores, f: int, g: int) {
    VoteFor(rs, sk, f) > VoteFor(rs, sk, g) || (VoteFor(rs, sk, f) == VoteFor(rs, sk, g) && f <= g)
  }

  ghost predicate IsConsensus(rs: seq<Record>, sk: Scores, f: int) {
    Voted(rs, f) && forall g :: Voted(rs, g) ==> Beats(rs, sk, f, g)
  }

  /** The consensus is unique, so it cannot depend on the order the votes are visited in. */
  lemma ConsensusUnique(rs: seq<Record>, sk: Scores, f: int, g: int)
    requires IsConsensus(rs, sk, f) && IsConsensus(rs, sk, g)
    ensures f == g
  {
    assert Beats(rs, sk, f, g) && Beats(rs, sk, g, f);
  }

  lemma {:induction false} ConsensusExists(rs: seq<Record>, sk: Scores, n: nat) returns (f: int)
    requires 0 < n <= |rs|
    ensures Voted(rs, f) && forall i :: 0 <= i < n ==> Beats(rs, sk, f, rs[i].spot.freq)
    decreases n
  {
    var g := rs[n - 1].spot.freq;
    assert Voted(rs, g);
    if n == 1 {
      f := g;
    } else {
      f := ConsensusExists(rs, sk, n - 1);
      if !Beats(rs, sk, f, g) { f := g; }
    }
  }

  ghost function Consensus(rs: seq<Record>, sk: Scores): (f: int)
    requires rs != []
    ensures IsConsensus(rs, sk, f)
  {
    assert exists f :: IsConsensus(rs, sk, f) by {
      var f := ConsensusExists(rs, sk, |rs|);
      assert IsConsensus(rs, sk, f);
    }
    var f :| IsConsensus(rs, sk, f);
    f
  }

  function Judged(s: Score, agrees: bool, now: int, maxDeviants: int): (r: Score) {
    var bad := if agrees then Max(s.bad - 1, 0) else Min(s.bad + 1, maxDeviants);
    var good := if agrees then Min(s.good + 1, maxDeviants) else Max(s.good - 1, 0);
    Score(good - bad, good, bad, Some(now))
  }

  /** The scores after every record was held against the consensus. */
  function Rescored(sk: Scores, rs: seq<Record>, f: int, now: int, maxDeviants: int): (r: Scores) {
    if rs == [] then sk else
      var t := Rescored(sk, rs[..|rs| - 1], f, now, maxDeviants);
      var r := rs[|rs| - 1];
      t[SkimKey(r) := Judged(ScoreOf(t, SkimKey(r)), r.spot.freq == f, now, maxDeviants)]
  }

  predicate ScoreOk(s: Score, maxDeviants: int) {
    0 <= s.good <= maxDeviants && 0 <= s.bad <= maxDeviants && s.score == s.good - s.bad
  }

  predicate ScoresOk(sk: Scores, maxDeviants: int) {
    forall k :: k in sk ==> ScoreOk(sk[k], maxDeviants)
  }

  lemma {:induction false} RescoredOk(sk: Scores, rs: seq<Record>, f: int, now: int, maxDeviants: int)
    requires ScoresOk(sk, maxDeviants) && maxDeviants >= 0
    ensures ScoresOk(Rescored(sk, rs, f, now, maxDeviants), maxDeviants)
  {
    if rs != [] { RescoredOk(sk, rs[..|rs| - 1], f, now, maxDeviants); }
  }

  // ---------------------------------------------------------------- the best record

  /** b is at least as good as a: reported before unreported, then the stronger
      report, then the later spot. */
  predicate AtLeast(b: Record, a: Record) {
    if b.spot.hasReport != a.spot.hasReport then b.spot.hasReport
    else if b.spot.hasReport then b.spot.report > a.spot.report
                                  || (b.spot.report == a.spot.report && b.when >= a.when)
    else b.when >= a.when
  }

  function Best(rs: seq<Record>): (b: Record)
    requires rs != []
    ensures b in rs
    ensures forall r :: r in rs ==> AtLeast(b, r)
  {
    if |rs| == 1 then rs[0] else
      var b := Best(rs[..|rs| - 1]);
      var r := rs[|rs| - 1];
      assert rs == rs[..|rs| - 1] + [r];
      if AtLeast(b, r) then b else r
  }

  // ---------------------------------------------------------------- ingest

  /** findBucket's outward walk: above before below at each distance. */
  function Search(bs: map<Key, Bucket>, call: bytes, nqrg: int, delta: int, units: int): (r: Option<Key>)
    requires delta >= 0
    decreases units - delta
  {
    if Key(call, nqrg + delta) in bs then Some(Key(call, nqrg + delta))
    else if Key(call, nqrg - delta) in bs then Some(Key(call, nqrg - delta))
    else if delta >= units then None
    else Search(bs, call, nqrg, delta + 1, units)
  }

  function Distance(a: int, b: int): (d: nat) { if a < b then b - a else a - b }

  /** The walk finds the nearest bucket of the call within range, the upper one on a
      tie, and finds none only when there is none. */
  lemma {:induction false} SearchNearest(bs: map<Key, Bucket>, call: bytes, nqrg: int, delta: int, units: int)
    requires 0 <= delta
    requires forall k :: k in bs && k.call == call ==> Distance(k.nqrg, nqrg) >= delta
    ensures match Search(bs, call, nqrg, delta, units)
            case None => forall k :: k in bs && k.call == call ==> Distance(k.nqrg, nqrg) > Max(units, delta)
            case Some(f) =>
              && f in bs && f.call == call && Distance(f.nqrg, nqrg) <= Max(units, delta)
              && forall k :: k in bs && k.call == call && k != f ==>
                   Distance(f.nqrg, nqrg) < Distance(k.nqrg, nqrg)
                   || (Distance(f.nqrg, nqrg) == Distance(k.nqrg, nqrg) && f.nqrg > k.nqrg)
    decreases units - delta
  {
    var up, down := Key(call, nqrg + delta), Key(call, nqrg - delta);
    if up !in bs && down !in bs {
      forall k | k in bs && k.call == call ensures Distance(k.nqrg, nqrg) >= delta + 1 {
        assert k == Key(call, k.nqrg);
      }
      if delta < units { SearchNearest(bs, call, nqrg, delta + 1, units); }
    } else {
      forall k | k in bs && k.call == call && Distance(k.nqrg, nqrg) == delta ensures k == up || k == down {
        assert k == Key(call, k.nqrg);
      }
    }
  }

  function FindKey(cfg: Config, bs: map<Key, Bucket>, call: bytes, nqrg: int): (r: Option<Key>) {
    Search(bs, call, nqrg, 0, cfg.searchKHz * 10)
  }

  function NewRecord(s: Spot, b: Bucket, now: int): (r: Record) {
    Record(s, if s.time.Some? then s.time.value else now, b.lastEmitAt.Some?, now)
  }

  /** The bucket after the arrival is admitted: a fresh round starts its clock. */
  function Opened(b: Bucket, now: int): (r: Bucket) {
    if b.records == [] then b.(createdAt := now) else b
  }

  function Appended(cfg: Config, st: State, key: Key, b: Bucket, s: Spot, now: int): (r: State) {
    if |b.records| >= cfg.maxRecords then st.(buckets := st.buckets[key := b])
    else st.(buckets := st.buckets[key := b.(records := b.records + [NewRecord(s, b, now)])],
             queue := st.queue + {key})
  }

  function Ingested(cfg: Config, startedAt: int, st: State, s: Spot, now: int): (r: State) {
    var call := DxCall(s);
    if (cfg.inrush > 0 && now - startedAt < cfg.inrush) || call == [] then st else
      match FindKey(cfg, st.buckets, call, s.freq)
      case None =>
        if |st.buckets| >= cfg.maxEntries then st
        else Appended(cfg, st.(nextId := st.nextId + 1), Key(call, s.freq), Bucket(st.nextId, now, None, 0, []), s, now)
      case Some(k) =>
        assert k in st.buckets by { SearchNearest(st.buckets, call, s.freq, 0, cfg.searchKHz * 10); }
        var b := st.buckets[k];
        if b.records == [] && b.lastEmitAt.Some? && now - b.lastEmitAt.value < cfg.respot then st
        else Appended(cfg, st, k, Opened(b, now), s, now)
  }

  // ---------------------------------------------------------------- processQueue

  predicate Waits(cfg: Config, b: Bucket, now: int) {
    var q, dwell := |Collapse(b.records)|, now - b.createdAt;
    (q < cfg.maxQuality && dwell < cfg.dwell && dwell < cfg.limbo)
    || (q < cfg.minQuality && dwell < cfg.limbo)
  }

  ghost function EmissionOf(cfg: Config, st: State, b: Bucket, now: int): (e: Emission)
    requires b.records != []
  {
    CollapseExact(b.records);
    var rs := Collapse(b.records);
    Emission(b.id, now, |rs|, b.records[0].arrived, Min(|rs|, cfg.maxQuality), Consensus(rs, st.skimmers), Best(rs))
  }

  /** The bucket moves to its consensus frequency, displacing whatever is there. */
  ghost function Rekeyed(bs: map<Key, Bucket>, key: Key, b: Bucket, e: Emission): (r: map<Key, Bucket>) {
    var to := Key(DxCall(e.best.spot), e.freq);
    if to.call != [] && to != key then (bs - {key})[to := b] else bs[key := b]
  }

  ghost function Emitted(cfg: Config, st: State, key: Key, b: Bucket, now: int): (r: State)
    requires b.records != []
  {
    CollapseExact(b.records);
    var e := EmissionOf(cfg, st, b, now);
    var done := b.(records := [], lastEmitAt := Some(now), lastQuality := Max(b.lastQuality, e.quality));
    State(Rekeyed(st.buckets, key, done, e), st.queue - {key},
          Rescored(st.skimmers, Collapse(b.records), e.freq, now, cfg.maxDeviants), st.nextId)
  }

  /** One iteration of processQueue's loop. */
  ghost function Processed(cfg: Config, st: State, key: Key, now: int): (r: (State, seq<Emission>)) {
    if key !in st.buckets then (st.(queue := st.queue - {key}), []) else
      var b := st.buckets[key];
      var dropped := st.(buckets := st.buckets - {key}, queue := st.queue - {key});
      if b.records == [] then
        if b.lastEmitAt.None? || now - b.lastEmitAt.value > cfg.cache then (dropped, []) else (st, [])
      else if Waits(cfg, b, now) then (st, [])
      else if |Collapse(b.records)| < cfg.minQuality then (dropped, [])
      else (Emitted(cfg, st, key, b, now), [EmissionOf(cfg, st, b, now)])
  }

  /** The loop in the order the map happened to yield its keys. */
  ghost function ProcessedAll(cfg: Config, st: State, keys: seq<Key>, now: int): (r: (State, seq<Emission>)) {
    if keys == [] then (st, []) else
      var (t, es) := ProcessedAll(cfg, st, keys[..|keys| - 1], now);
      var (u, fs) := Processed(cfg, t, keys[|keys| - 1], now);
      (u, es + fs)
  }

  function Forgotten(cfg: Config, sk: Scores, now: int): (r: Scores) {
    map k | k in sk && !(sk[k].lastIn.Some? && now - sk[k].lastIn.value > cfg.cache) :: sk[k]
  }

  ghost function Ticked(cfg: Config, st: State, keys: seq<Key>, now: int): (r: (State, seq<Emission>)) {
    var (t, es) := ProcessedAll(cfg, st, keys, now);
    (t.(skimmers := Forgotten(cfg, t.skimmers, now)), es)
  }
}
