/** The sharded dedupers: every operation acts on the shards as on one map. */
module Dedupers {
  import opened Common
  import opened Shards
  import opened Dedup

  const COMPACT_MIN_PEAK := 1024

  function Sum(s: seq<nat>): (n: nat) {
    if s == [] then 0 else Sum(s[..|s| - 1]) + s[|s| - 1]
  }

  lemma {:induction false} SumBump(s: seq<nat>, i: nat, inc: nat)
    requires i < |s|
    ensures Sum(s[i := s[i] + inc]) == Sum(s) + inc
  {
    var n := |s| - 1;
    if i == n {
      assert s[i := s[i] + inc][..n] == s[..n];
    } else {
      SumBump(s[..n], i, inc);
      assert s[i := s[i] + inc][..n] == s[..n][i := s[i] + inc];
    }
  }

  /** Cleaning shard by shard cleans the whole. */
  lemma FlatCleaned(cfg: Config, ss: seq<Cache>, r: seq<Cache>, now: int)
    requires Sharded(ss) && Sharded(r)
    requires forall i :: 0 <= i < SHARDS ==> r[i] == Cleaned(cfg, ss[i], now)
    ensures Flat(r) == Cleaned(cfg, Flat(ss), now)
  {
    hide Sub;
    forall j: uint64 ensures Get(r[j % SHARDS], j) == Get(Cleaned(cfg, Flat(ss), now), j) { FlatGet(ss, j); }
    FlatIs(r, Cleaned(cfg, Flat(ss), now));
  }

  /** Dropping keys of one shard drops them from the whole. */
  lemma FlatDropped(ss: seq<Cache>, i: nat, keys: set<uint64>)
    requires Sharded(ss) && i < SHARDS && forall k :: k in keys ==> k % SHARDS == i
    ensures Sharded(ss[i := ss[i] - keys]) && Flat(ss[i := ss[i] - keys]) == Flat(ss) - keys
  {
    var r := ss[i := ss[i] - keys];
    forall j: uint64 ensures Get(r[j % SHARDS], j) == Get(Flat(ss) - keys, j) { FlatGet(ss, j); }
    FlatIs(r, Flat(ss) - keys);
  }

  /** Both dedupers keep the same shards. ShouldForward and Cleanup are the secondary's entry
      points; ProcessSpot, CollectExpired and DeleteCollected are the primary's. */
  class Deduper {
    const cfg: Config
    var caches: seq<Cache>
    var processed: seq<nat>
    var duplicates: seq<nat>
    var peaks: seq<nat>

    ghost predicate Valid()
      reads this
    {
      Sharded(caches) && |processed| == |duplicates| == |peaks| == SHARDS
    }

    ghost function Abs(): (m: Cache)
      requires Valid()
      reads this
    {
      Flat(caches)
    }

    ghost function Stats(): (c: Counters)
      reads this
    {
      Counters(Sum(processed), Sum(duplicates))
    }

    constructor (cfg: Config)
      ensures Valid() && this.cfg == cfg && Abs() == map[]
      ensures Stats() == Counters(0, 0)
    {
      this.cfg := cfg;
      caches := seq(SHARDS, _ => map[]);
      processed := seq(SHARDS, _ => 0);
      duplicates := seq(SHARDS, _ => 0);
      peaks := seq(SHARDS, _ => 0);
      new;
      FlatEmpty(caches);
      SumZero(processed);
      SumZero(duplicates);
    }

    /** The shard section both dedupers share. */
    method Check(s: Spot) returns (forward: bool)
      requires Valid()
      modifies this
      ensures Valid() && Abs() == Judged(cfg, old(Abs()), s)
      ensures forward <==> !Judge(cfg, old(Abs()), s).Duplicate?
      ensures Stats().processed == old(Stats()).processed + 1
      ensures Stats().duplicates == old(Stats()).duplicates + if forward then 0 else 1
    {
      hide Flat, Sharded, Sum, Age;
      ShardCount(caches);
      var i := s.hash % SHARDS;
      FlatGet(caches, s.hash);
      SumBump(processed, i, 1);
      processed := processed[i := processed[i] + 1];
      var last := Get(caches[i], s.hash);
      if last.Some? && Age(s.time, last.value.when) < cfg.window {
        var upgrade := s.hasReport && !last.value.hasReport;
        var stronger := cfg.preferStronger && s.report > last.value.snr;
        if upgrade || stronger {
          Store(i, s);
          return true;
        }
        SumBump(duplicates, i, 1);
        duplicates := duplicates[i := duplicates[i] + 1];
        return false;
      }
      Store(i, s);
      return true;
    }

    method Store(i: nat, s: Spot)
      requires Valid() && i == s.hash % SHARDS
      modifies this`caches, this`peaks
      ensures Valid() && Abs() == Put(old(Abs()), s.hash, EntryOf(s))
    {
      hide Flat;
      FlatSet(caches, s.hash, EntryOf(s));
      caches := caches[i := Put(caches[i], s.hash, EntryOf(s))];
      if |caches[i]| > peaks[i] { peaks := peaks[i := |caches[i]|]; }
    }

    method ShouldForward(s: Spot) returns (forward: bool)
      requires Valid() && cfg.secondary
      modifies this
      ensures Valid() && Abs() == Step(cfg, old(Abs()), Offer(s))
      ensures forward <==> Forwards(cfg, old(Abs()), s)
      ensures Stats() == Counted(cfg, old(Abs()), old(Stats()), s)
      ensures cfg.window <= 0 || s.adif <= 0 ==> forward && Abs() == old(Abs()) && Stats() == old(Stats())
      ensures cfg.window > 0 && s.adif > 0 ==> Stats().processed == old(Stats()).processed + 1
    {
      hide Flat, Sharded, Sum, Judge;
      if cfg.window <= 0 { return true; }
      if s.adif <= 0 { return true; }
      forward := Check(s);
    }

    method ProcessSpot(s: Spot) returns (forward: bool)
      requires Valid() && !cfg.secondary
      modifies this
      ensures Valid() && Abs() == Step(cfg, old(Abs()), Offer(s))
      ensures forward <==> Forwards(cfg, old(Abs()), s)
      ensures Stats() == Counted(cfg, old(Abs()), old(Stats()), s)
    {
      hide Flat, Sharded, Sum, Judge;
      forward := Check(s);
    }

    /** GetStats: the totals over the shards. */
    method GetStats() returns (stats: Counters, size: nat)
      requires Valid()
      ensures stats == Stats() && size == |Abs()|
    {
      hide Flat, Sharded;
      ShardCount(caches);
      var p, d := 0, 0;
      size := 0;
      assert processed[..0] == [] && duplicates[..0] == [];
      for i := 0 to SHARDS
        invariant p == Sum(processed[..i]) && d == Sum(duplicates[..i]) && size == CountUpTo(caches, i)
      {
        assert processed[..i + 1][..i] == processed[..i] && duplicates[..i + 1][..i] == duplicates[..i];
        p, d, size := p + processed[i], d + duplicates[i], size + |caches[i]|;
      }
      assert processed[..SHARDS] == processed && duplicates[..SHARDS] == duplicates;
      CountAll(caches);
      stats := Counters(p, d);
    }

    /** The secondary's cleanup: each shard cleaned, and rebuilt when it shrank a lot. */
    method Cleanup(now: int)
      requires Valid()
      modifies this`caches, this`peaks
      ensures Valid() && Abs() == Step(cfg, old(Abs()), Event.Cleanup(now))
    {
      hide Flat, Sub;
      if cfg.window <= 0 { return; }
      for i := 0 to SHARDS
        invariant Valid()
        invariant forall j :: 0 <= j < i ==> caches[j] == Cleaned(cfg, old(caches)[j], now)
        invariant forall j :: i <= j < SHARDS ==> caches[j] == old(caches)[j]
      {
        var removed := CleanShard(i, now);
        if removed { MaybeCompact(i); }
      }
      FlatCleaned(cfg, old(caches), caches, now);
    }

    method CleanShard(i: nat, now: int) returns (removed: bool)
      requires Valid() && i < SHARDS && cfg.window > 0
      modifies this`caches
      ensures Valid() && caches == old(caches)[i := Cleaned(cfg, old(caches)[i], now)]
    {
      hide Flat, Sub;
      removed := false;
      ghost var all := caches[i];
      var m := caches[i];
      var left := m.Keys;
      while left != {}
        invariant left <= all.Keys
        invariant forall k :: k in m <==> k in all && (k in left || Sub(now, all[k].when) <= cfg.window)
        invariant forall k :: k in m ==> m[k] == all[k]
        decreases |left|
      {
        var k: uint64 :| k in left;
        left := left - {k};
        if Sub(now, m[k].when) > cfg.window {
          m := m - {k};
          removed := true;
        }
      }
      assert m == Cleaned(cfg, all, now);
      caches := caches[i := m];
    }

    /** Rebuilding a shard's map loses nothing. */
    method MaybeCompact(i: nat)
      requires Valid() && i < SHARDS
      modifies this`caches, this`peaks
      ensures Valid() && caches == old(caches)
    {
      if peaks[i] < COMPACT_MIN_PEAK { return; }
      var threshold := peaks[i] / 2;
      if |caches[i]| >= threshold { return; }
      var next: Cache := map k | k in caches[i] :: caches[i][k];
      assert next == caches[i];
      caches := caches[i := next];
      assert caches == old(caches);
      peaks := peaks[i := |next|];
    }

    /** Phase one of the primary's cleanup of a shard: the keys that are expired now. */
    method CollectExpired(i: nat, now: int) returns (keys: set<uint64>)
      requires Valid() && i < SHARDS
      ensures forall k :: k in keys <==> k in caches[i] && Sub(now, caches[i][k].when) > cfg.window
    {
      hide Flat, Sub;
      keys := {};
      var left := caches[i].Keys;
      while left != {}
        invariant left <= caches[i].Keys
        invariant forall k :: k in keys <==> k in caches[i] && k !in left && Sub(now, caches[i][k].when) > cfg.window
        decreases |left|
      {
        var k: uint64 :| k in left;
        left := left - {k};
        if Sub(now, caches[i][k].when) > cfg.window { keys := keys + {k}; }
      }
    }

    /** Phase two, in its own lock section: the collected keys go, whatever they hold by then. */
    method DeleteCollected(i: nat, keys: set<uint64>)
      requires Valid() && i < SHARDS && forall k :: k in keys ==> k % SHARDS == i
      modifies this`caches, this`peaks
      ensures Valid() && Abs() == Step(cfg, old(Abs()), Drop(keys))
    {
      hide Flat;
      if keys != {} {
        FlatDropped(caches, i, keys);
        caches := caches[i := caches[i] - keys];
        MaybeCompact(i);
      } else {
        assert Flat(caches) - keys == Flat(caches);
      }
    }
  }

  lemma {:induction false} SumZero(s: seq<nat>)
    requires forall i :: 0 <= i < |s| ==> s[i] == 0
    ensures Sum(s) == 0
  {
    if s != [] { SumZero(s[..|s| - 1]); }
  }

  /** Deleting collected keys shows in a verdict exactly when the spot's key was collected and
      by now holds an entry the spot is in the window of. */
  lemma DeletionShowsIff(cfg: Config, cache: Cache, keys: set<uint64>, s: Spot)
    ensures Judge(cfg, cache - keys, s) != Judge(cfg, cache, s) <==>
            s.hash in keys && s.hash in cache && InWindow(cfg, s.time, cache[s.hash].when)
  {
    hide InWindow;
  }

  /** The primary's two phases can forget a live spot: collected while expired, accepted anew
      before the deletion, it is gone afterwards and its repeat goes out again. */
  lemma RefreshedSpotForgotten()
    ensures exists cfg: Config, cache: Cache, now: int, s: Spot, h: uint64 ::
              && cfg.window > 0 && !cfg.secondary && s.time >= now && s.hash == h
              && h in cache && Sub(now, cache[h].when) > cfg.window
              && Judge(cfg, Judged(cfg, cache, s), s).Duplicate?
              && Judge(cfg, Judged(cfg, cache, s) - {h}, s).Fresh?
  {
    var cfg, s := Config(10, false, false), Spot(0, 100, 0, false, 1);
    var cache: Cache := map[0 := Entry(0, 0, false)];
    var h: uint64 := 0;
    assert Judged(cfg, cache, s) == map[0 := EntryOf(s)];
    assert Sub(100, cache[h].when) > cfg.window;
    assert Judge(cfg, Judged(cfg, cache, s), s).Duplicate?;
    assert Judge(cfg, Judged(cfg, cache, s) - {h}, s).Fresh?;
  }
}
