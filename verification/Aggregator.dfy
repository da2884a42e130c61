/** The aggregator's own code: maps updated in place and loops over them in
    whatever order they yield, proved against the state machine of Aggregate. */
module Aggregator {
  import opened Common
  import opened Aggregate

  // ---------------------------------------------------------------- loops over records

  method CollapseByOrigin(records: seq<Record>) returns (out: seq<Record>)
    ensures out == Collapse(records)
  {
    var seen: set<bytes> := {};
    out := [];
    for i := 0 to |records|
      invariant out == Collapse(records[..i]) && seen == Origins(out)
    {
      assert records[..i + 1][..i] == records[..i];
      if records[i].spot.origin in seen { continue; }
      seen := seen + {records[i].spot.origin};
      OriginsSnoc(out, records[i]);
      out := out + [records[i]];
    }
    assert records[..|records|] == records;
  }

  method PickBestRecord(records: seq<Record>) returns (best: Record)
    requires records != []
    ensures best == Best(records)
  {
    best := records[0];
    assert records[..1] == [records[0]];
    for i := 1 to |records|
      invariant best == Best(records[..i])
    {
      assert records[..i + 1][..i] == records[..i];
      var rec := records[i];
      if rec.spot.hasReport && !best.spot.hasReport {
        best := rec;
        continue;
      }
      if rec.spot.hasReport && best.spot.hasReport {
        if rec.spot.report > best.spot.report {
          best := rec;
          continue;
        }
        if rec.spot.report == best.spot.report && rec.when > best.when {
          best := rec;
          continue;
        }
      }
      if !rec.spot.hasReport && !best.spot.hasReport && rec.when > best.when {
        best := rec;
      }
    }
    assert records[..|records|] == records;
  }

  // ---------------------------------------------------------------- votes

  /** The vote table holds exactly the voted frequencies with their weight. */
  ghost predicate Tallied(votes: map<int, nat>, rs: seq<Record>, sk: Scores) {
    && (forall f :: f in votes <==> Voted(rs, f))
    && (forall f :: f in votes ==> votes[f] == VoteFor(rs, sk, f))
  }

  lemma {:induction false} VoteForUnvoted(rs: seq<Record>, sk: Scores, f: int)
    requires !Voted(rs, f)
    ensures VoteFor(rs, sk, f) == 0
  {
    if rs != [] {
      var n := |rs| - 1;
      assert rs[n].spot.freq != f;
      assert forall i :: 0 <= i < n ==> rs[..n][i] == rs[i];
      VoteForUnvoted(rs[..n], sk, f);
    }
  }

  lemma TalliedSnoc(votes: map<int, nat>, rs: seq<Record>, sk: Scores, r: Record)
    requires Tallied(votes, rs, sk)
    ensures var f := r.spot.freq;
            Tallied(votes[f := (if f in votes then votes[f] else 0) + Weight(sk, r)], rs + [r], sk)
  {
    hide Weight;
    var all := rs + [r];
    assert all[..|rs|] == rs && all[|rs|] == r;
    forall g ensures Voted(all, g) <==> Voted(rs, g) || g == r.spot.freq {
      if i :| 0 <= i < |rs| && rs[i].spot.freq == g { assert all[i].spot.freq == g; }
      if g == r.spot.freq { assert all[|rs|].spot.freq == g; }
    }
    if r.spot.freq !in votes { VoteForUnvoted(rs, sk, r.spot.freq); }
  }

  /** The winner of a vote table, found in any visiting order. */
  method Winner(votes: map<int, nat>, ghost rs: seq<Record>, ghost sk: Scores) returns (consensus: int)
    requires rs != [] && Tallied(votes, rs, sk)
    ensures consensus == Consensus(rs, sk)
  {
    hide VoteFor, Voted;
    consensus := 0;
    var maxVote: int := -1;
    var left: set<int> := votes.Keys;
    while left != {}
      invariant left <= votes.Keys
      invariant left == votes.Keys ==> maxVote == -1
      invariant left != votes.Keys ==> consensus in votes && maxVote == votes[consensus]
      invariant forall g :: g in votes && g !in left ==> Beats(rs, sk, consensus, g)
      decreases |left|
    {
      Inhabited(left);
      var freq: int :| freq in left;
      left := left - {freq};
      var vote := votes[freq];
      if vote > maxVote || (vote == maxVote && freq < consensus) {
        consensus := freq;
        maxVote := vote;
      }
    }
    FirstVoted(rs);
    assert IsConsensus(rs, sk, consensus);
    ConsensusUnique(rs, sk, consensus, Consensus(rs, sk));
  }

  lemma Inhabited(s: set<int>)
    requires s != {}
    ensures exists x: int :: x in s
  {
    assert (forall x: int :: x !in s) ==> s == {};
  }

  lemma FirstVoted(rs: seq<Record>)
    requires rs != []
    ensures Voted(rs, rs[0].spot.freq)
  {
  }

  // ---------------------------------------------------------------- scores

  ghost predicate SameScores(a: Scores, b: Scores) {
    forall k :: ScoreOf(a, k) == ScoreOf(b, k)
  }

  function SkimKeys(rs: seq<Record>): (s: set<SkimmerKey>) {
    set i | 0 <= i < |rs| :: SkimKey(rs[i])
  }

  lemma {:induction false} RescoredKeys(sk: Scores, rs: seq<Record>, f: int, now: int, maxDeviants: int)
    ensures Rescored(sk, rs, f, now, maxDeviants).Keys == sk.Keys + SkimKeys(rs)
  {
    if rs == [] {
      assert SkimKeys(rs) == {};
    } else {
      var n := |rs| - 1;
      RescoredKeys(sk, rs[..n], f, now, maxDeviants);
      assert SkimKeys(rs) == SkimKeys(rs[..n]) + {SkimKey(rs[n])} by {
        forall k | k in SkimKeys(rs) ensures k in SkimKeys(rs[..n]) + {SkimKey(rs[n])} {
          var i :| 0 <= i < |rs| && SkimKey(rs[i]) == k;
          if i < n { assert SkimKey(rs[..n][i]) == k; }
        }
        forall k | k in SkimKeys(rs[..n]) ensures k in SkimKeys(rs) {
          var i :| 0 <= i < n && SkimKey(rs[..n][i]) == k;
          assert SkimKey(rs[i]) == k;
        }
        assert SkimKey(rs[n]) in SkimKeys(rs);
      }
    }
  }

  lemma SameScoresUpdate(a: Scores, b: Scores, key: SkimmerKey, s: Score)
    requires SameScores(a, b)
    ensures SameScores(a[key := s], b[key := s])
  {
    var x, y := a[key := s], b[key := s];
    forall k ensures ScoreOf(x, k) == ScoreOf(y, k) {
      assert ScoreOf(a, k) == ScoreOf(b, k);
    }
  }

  lemma SameScoresEqual(a: Scores, b: Scores)
    requires SameScores(a, b) && a.Keys == b.Keys
    ensures a == b
  {
    forall k | k in a ensures a[k] == b[k] { assert ScoreOf(a, k) == ScoreOf(b, k); }
  }

  class SkimmerAggregator {
    const cfg: Config
    const startedAt: int
    var buckets: map<Key, Bucket>
    var queue: set<Key>
    var skimmers: Scores
    var nextId: nat
    var output: seq<Emission>

    ghost function Abs(): (s: State)
      reads this
    {
      State(buckets, queue, skimmers, nextId)
    }

    constructor (cfg: Config, now: int)
      ensures this.cfg == cfg && startedAt == now && Abs() == EMPTY && output == []
    {
      this.cfg := cfg;
      startedAt := now;
      buckets, queue, skimmers, nextId, output := map[], {}, map[], 0, [];
    }

    method FindBucket(call: bytes, nqrg: int) returns (found: bool, key: Key)
      ensures FindKey(cfg, buckets, call, nqrg) == if found then Some(key) else None
      ensures !found ==> key == Key(call, nqrg)
      ensures found ==> key in buckets
    {
      key := Key(call, nqrg);
      if key in buckets { return true, key; }
      var searchUnits := cfg.searchKHz * 10;
      var delta := 1;
      assert nqrg + 0 == nqrg && nqrg - 0 == nqrg;
      while delta <= searchUnits
        invariant delta >= 1
        invariant FindKey(cfg, buckets, call, nqrg) ==
                  if delta <= searchUnits then Search(buckets, call, nqrg, delta, searchUnits) else None
      {
        var up := Key(call, nqrg + delta);
        if up in buckets { return true, up; }
        var down := Key(call, nqrg - delta);
        if down in buckets { return true, down; }
        delta := delta + 1;
      }
      return false, key;
    }

    method Ingest(s: Spot, now: int)
      modifies this`buckets, this`queue, this`nextId
      ensures Abs() == Ingested(cfg, startedAt, old(Abs()), s, now)
    {
      hide DxCall, Search;
      if cfg.inrush > 0 {
        if now - startedAt < cfg.inrush { return; }
      }
      var dxCall := DxCall(s);
      if dxCall == [] { return; }
      var found, key := FindBucket(dxCall, s.freq);
      var bucket;
      if found {
        bucket := buckets[key];
        if |bucket.records| == 0 {
          if bucket.lastEmitAt.Some? && now - bucket.lastEmitAt.value < cfg.respot { return; }
          bucket := bucket.(createdAt := now);
          buckets := buckets[key := bucket];
        }
      } else {
        if |buckets| >= cfg.maxEntries { return; }
        bucket := Bucket(nextId, now, None, 0, []);
        nextId := nextId + 1;
        buckets := buckets[key := bucket];
      }
      assert found ==> bucket == Opened(old(buckets)[key], now);
      assert buckets == old(buckets)[key := bucket];
      if |bucket.records| >= cfg.maxRecords { return; }
      var record := Record(s, if s.time.Some? then s.time.value else now, bucket.lastEmitAt.Some?, now);
      ghost var all := bucket.records + [record];
      buckets := buckets[key := bucket.(records := bucket.records + [record])];
      queue := queue + {key};
      assert buckets == old(buckets)[key := bucket.(records := all)];
    }

    /** consensusFrequency: tally weighted votes, pick the winner, then rescore every
        skimmer that voted. */
    method ConsensusFrequency(records: seq<Record>, now: int) returns (consensus: int)
      requires records != []
      modifies this`skimmers
      ensures consensus == Consensus(records, old(skimmers))
      ensures skimmers == Rescored(old(skimmers), records, consensus, now, cfg.maxDeviants)
    {
      ghost var before := skimmers;
      var votes := Tally(records);
      consensus := Winner(votes, records, before);
      Rescore(records, consensus, now, before);
    }

    method Tally(records: seq<Record>) returns (votes: map<int, nat>)
      modifies this`skimmers
      ensures Tallied(votes, records, old(skimmers))
      ensures SameScores(skimmers, old(skimmers)) && skimmers.Keys == old(skimmers).Keys + SkimKeys(records)
    {
      hide VoteFor, Voted;
      votes := map[];
      TalliedNone(skimmers);
      assert SkimKeys(records[..0]) == {};
      for i := 0 to |records|
        invariant Tallied(votes, records[..i], old(skimmers))
        invariant SameScores(skimmers, old(skimmers))
        invariant skimmers.Keys == old(skimmers).Keys + SkimKeys(records[..i])
      {
        var rec := records[i];
        assert records[..i + 1] == records[..i] + [rec];
        SkimKeysSnoc(records[..i], rec);
        TalliedSnoc(votes, records[..i], old(skimmers), rec);
        var key := SkimKey(rec);
        assert ScoreOf(skimmers, key) == ScoreOf(old(skimmers), key);
        if key !in skimmers { skimmers := skimmers[key := NEW_SCORE]; }
        var score := skimmers[key].score;
        var weight := if score < 1 then 1 else 10 * score;
        votes := votes[rec.spot.freq := (if rec.spot.freq in votes then votes[rec.spot.freq] else 0) + weight];
      }
      assert records[..|records|] == records;
    }

    method Rescore(records: seq<Record>, consensus: int, now: int, ghost before: Scores)
      requires SameScores(skimmers, before) && skimmers.Keys == before.Keys + SkimKeys(records)
      modifies this`skimmers
      ensures skimmers == Rescored(before, records, consensus, now, cfg.maxDeviants)
    {
      hide SkimKeys;
      for i := 0 to |records|
        invariant SameScores(skimmers, Rescored(before, records[..i], consensus, now, cfg.maxDeviants))
        invariant skimmers.Keys == before.Keys + SkimKeys(records)
      {
        var rec := records[i];
        assert records[..i + 1][..i] == records[..i];
        var key := SkimKey(rec);
        SkimKeyIn(records, i);
        ghost var t := Rescored(before, records[..i], consensus, now, cfg.maxDeviants);
        assert ScoreOf(skimmers, key) == ScoreOf(t, key);
        var score := skimmers[key];
        if rec.spot.freq != consensus {
          score := score.(bad := Min(score.bad + 1, cfg.maxDeviants), good := Max(score.good - 1, 0));
        } else {
          score := score.(good := Min(score.good + 1, cfg.maxDeviants), bad := Max(score.bad - 1, 0));
        }
        score := Score(score.good - score.bad, score.good, score.bad, Some(now));
        assert score == Judged(ScoreOf(t, key), rec.spot.freq == consensus, now, cfg.maxDeviants);
        assert Rescored(before, records[..i + 1], consensus, now, cfg.maxDeviants) == t[key := score];
        SameScoresUpdate(skimmers, t, key, score);
        skimmers := skimmers[key := score];
      }
      assert records[..|records|] == records;
      RescoredKeys(before, records, consensus, now, cfg.maxDeviants);
      SameScoresEqual(skimmers, Rescored(before, records, consensus, now, cfg.maxDeviants));
    }

    /** One key of the queue. */
    method ProcessKey(key: Key, now: int)
      modifies this`buckets, this`queue, this`skimmers, this`output
      ensures Abs() == Processed(cfg, old(Abs()), key, now).0
      ensures output == old(output) + Processed(cfg, old(Abs()), key, now).1
    {
      hide DxCall, Collapse, Rescored;
      if key !in buckets {
        queue := queue - {key};
        return;
      }
      var bucket := buckets[key];
      if |bucket.records| == 0 {
        if bucket.lastEmitAt.None? || now - bucket.lastEmitAt.value > cfg.cache {
          queue := queue - {key};
          buckets := buckets - {key};
        }
        return;
      }
      var unique := CollapseByOrigin(bucket.records);
      var quality := |unique|;
      var dwell := now - bucket.createdAt;
      if quality < cfg.maxQuality && dwell < cfg.dwell && dwell < cfg.limbo { return; }
      if dwell >= cfg.limbo && quality < cfg.minQuality {
        queue := queue - {key};
        buckets := buckets - {key};
        return;
      }
      if quality < cfg.minQuality { return; }
      Emit(key, bucket, unique, now);
    }

    method Emit(key: Key, bucket: Bucket, unique: seq<Record>, now: int)
      requires bucket.records != [] && unique == Collapse(bucket.records)
      modifies this`buckets, this`queue, this`skimmers, this`output
      ensures Abs() == Emitted(cfg, old(Abs()), key, bucket, now)
      ensures output == old(output) + [EmissionOf(cfg, old(Abs()), bucket, now)]
    {
      hide DxCall, Rescored, Consensus, Best;
      CollapseExact(bucket.records);
      hide Collapse;
      var quality := if |unique| > cfg.maxQuality then cfg.maxQuality else |unique|;
      var consensus := ConsensusFrequency(unique, now);
      var best := PickBestRecord(unique);
      output := output + [Emission(bucket.id, now, |unique|, bucket.records[0].arrived, quality, consensus, best)];
      var done := bucket.(records := [], lastEmitAt := Some(now), lastQuality := Max(bucket.lastQuality, quality));
      buckets := buckets[key := done];
      queue := queue - {key};
      var consensusKey := Key(DxCall(best.spot), consensus);
      if consensusKey.call != [] && consensusKey != key {
        buckets := buckets - {key};
        buckets := buckets[consensusKey := done];
        assert old(buckets)[key := done] - {key} == old(buckets) - {key};
      }
    }

    /** processQueue: every queued key once, in the order the map yields them. */
    method ProcessQueue(now: int) returns (ghost order: seq<Key>)
      modifies this`buckets, this`queue, this`skimmers, this`output
      ensures Visited(order, old(queue), {})
      ensures Abs() == Ticked(cfg, old(Abs()), order, now).0
      ensures output == old(output) + Ticked(cfg, old(Abs()), order, now).1
    {
      hide Processed, Visited;
      VisitedNone(queue);
      var left := queue;
      order := [];
      while left != {}
        invariant left <= old(queue)
        invariant Visited(order, old(queue), left)
        invariant Abs() == ProcessedAll(cfg, old(Abs()), order, now).0
        invariant output == old(output) + ProcessedAll(cfg, old(Abs()), order, now).1
        decreases |left|
      {
        var key :| key in left;
        ghost var was, before := left, order;
        left := left - {key};
        order := order + [key];
        assert order[..|before|] == before;
        assert left + {key} == was;
        VisitedNext(before, old(queue), left, key);
        ProcessKey(key, now);
      }
      skimmers := map k | k in skimmers && !(skimmers[k].lastIn.Some? && now - skimmers[k].lastIn.value > cfg.cache)
                    :: skimmers[k];
    }
  }

  /** The keys of all seen so far, each once. */
  predicate Visited(order: seq<Key>, all: set<Key>, left: set<Key>) {
    (set k | k in order) == all - left && |order| == |all| - |left|
  }

  lemma VisitedNone(all: set<Key>)
    ensures Visited([], all, all)
  {
  }

  lemma VisitedNext(order: seq<Key>, all: set<Key>, left: set<Key>, key: Key)
    requires Visited(order, all, left + {key}) && key !in left && key in all
    ensures Visited(order + [key], all, left)
  {
    assert (set k | k in order + [key]) == (set k | k in order) + {key};
  }

  lemma TalliedNone(sk: Scores)
    ensures Tallied(map[], [], sk)
  {
  }

  lemma SkimKeysSnoc(rs: seq<Record>, r: Record)
    ensures SkimKeys(rs + [r]) == SkimKeys(rs) + {SkimKey(r)}
  {
    var all := rs + [r];
    assert all[|rs|] == r;
    forall k | k in SkimKeys(rs) ensures k in SkimKeys(all) {
      var i :| 0 <= i < |rs| && SkimKey(rs[i]) == k;
      assert SkimKey(all[i]) == k;
    }
  }

  lemma SkimKeyIn(rs: seq<Record>, i: nat)
    requires i < |rs|
    ensures SkimKey(rs[i]) in SkimKeys(rs)
  {
  }
}
