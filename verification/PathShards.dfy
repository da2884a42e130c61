/** The path store's sharded maps: every operation on shards is the same operation
    on one map, in whatever order a shard's entries are visited. */
module PathShards {
  import opened Common
  import opened Shards
  import opened PathKeys
  import opened PathStats
  import opened PathStore

  /** Purging shard by shard purges the whole. */
  lemma FlatPurged(cfg: Config, bi: BandIndex, ss: seq<Buckets>, r: seq<Buckets>, now: int)
    requires Sharded(ss) && Sharded(r)
    requires forall i :: 0 <= i < SHARDS ==> r[i] == Purged(cfg, bi, ss[i], now)
    ensures Flat(r) == Purged(cfg, bi, Flat(ss), now)
  {
    hide Stale;
    forall j: uint64 ensures Get(r[j % SHARDS], j) == Get(Purged(cfg, bi, Flat(ss), now), j) { FlatGet(ss, j); }
    FlatIs(r, Purged(cfg, bi, Flat(ss), now));
  }

  class Store {
    const cfg: Config
    const bandIndex: BandIndex
    const curves: Curves
    var shards: seq<Buckets>
    var peaks: seq<nat>

    ghost predicate Valid()
      reads this
    {
      Sharded(shards) && |peaks| == SHARDS
    }

    ghost function Abs(): (m: Buckets)
      requires Valid()
      reads this
    {
      Flat(shards)
    }

    constructor (curves: Curves, cfg: Config, bandIndex: BandIndex)
      ensures Valid() && Abs() == map[]
      ensures this.curves == curves && this.cfg == cfg && this.bandIndex == bandIndex
    {
      this.curves, this.cfg, this.bandIndex := curves, cfg, bandIndex;
      shards := seq(SHARDS, _ => map[]);
      peaks := seq(SHARDS, _ => 0);
    }

    method UpdateBucket(key: uint64, power: real, weight: real, now: int, halfLife: int)
      requires Valid()
      modifies this
      ensures Valid() && Abs() == BucketUpdated(curves, old(Abs()), key, power, weight, now, halfLife)
    {
      hide Times, DecayFactor, Flat, Sharded;
      if key == 0 { return; }
      ShardCount(shards);
      var i := key % SHARDS;
      var b := Get(shards[i], key);
      FlatGet(shards, key);
      var next;
      if b.None? {
        next := Bucket(Times(power, weight), weight, now);
      } else {
        var decay := DecayFactor(curves, now - b.value.lastUpdate, halfLife);
        var oldWeight := Times(b.value.weight, decay);
        var oldPower := Times(b.value.sumPower, decay);
        if oldWeight + weight <= 0.0 {
          next := Bucket(0.0, 0.0, now);
        } else {
          next := Bucket(oldPower + Times(power, weight), oldWeight + weight, now);
        }
      }
      FlatSet(shards, key, next);
      shards := shards[i := Put(shards[i], key, next)];
      if |shards[i]| > peaks[i] { peaks := peaks[i := |shards[i]|]; }
    }

    method Record(c: Cells, band: bytes, power: real, weight: real, now: int)
      requires Valid()
      modifies this
      ensures Valid()
      ensures Abs() == PathStore.Update(curves, cfg, bandIndex, old(Abs()), c, band, power, weight, now)
    {
      hide BucketUpdated, NormalizeBand, HalfLife, PackKey, PackCoarseKey, Flat, Sharded;
      if !cfg.enabled { return; }
      var idx := LookupBand(bandIndex, band);
      if idx.None? { return; }
      var halfLife := HalfLife(cfg, band);
      if c.receiver != INVALID_CELL && c.sender != INVALID_CELL {
        UpdateBucket(PackKey(c.receiver, c.sender, idx.value), power, weight, now, halfLife);
      }
      if c.receiverCoarse != INVALID_CELL && c.senderCoarse != INVALID_CELL {
        UpdateBucket(PackCoarseKey(c.receiverCoarse, c.senderCoarse, idx.value), power, weight, now, halfLife);
      }
    }

    method SampleOne(key: uint64, halfLife: int, now: int) returns (s: Sample)
      requires Valid()
      ensures s == SampleKey(curves, cfg, Abs(), key, halfLife, now)
    {
      hide StaleAfter, SampleOf;
      if key == 0 { return NO_SAMPLE; }
      FlatGet(shards, key);
      s := SampleOf(curves, Get(shards[key % SHARDS], key), halfLife, StaleAfter(cfg, halfLife), now);
    }

    /** PurgeStale over every shard. */
    method PurgeStale(now: int) returns (removed: nat)
      requires Valid()
      modifies this
      ensures Valid() && peaks == old(peaks)
      ensures Abs() == Purged(cfg, bandIndex, old(Abs()), now)
      ensures removed == |old(Abs())| - |Abs()|
    {
      hide Stale, Flat;
      removed := 0;
      CountAll(shards);
      for i := 0 to SHARDS
        invariant Valid() && peaks == old(peaks)
        invariant forall j :: 0 <= j < i ==> shards[j] == Purged(cfg, bandIndex, old(shards)[j], now)
        invariant forall j :: i <= j < SHARDS ==> shards[j] == old(shards)[j]
        invariant removed == CountUpTo(old(shards), i) - CountUpTo(shards, i)
      {
        ghost var before := shards;
        var n := PurgeShard(i, now);
        removed := removed + n;
        CountSame(before, shards, i);
      }
      CountAll(shards);
      FlatPurged(cfg, bandIndex, old(shards), shards, now);
    }

    method PurgeShard(i: nat, now: int) returns (removed: nat)
      requires Valid() && i < SHARDS
      modifies this`shards
      ensures Valid()
      ensures shards == old(shards)[i := Purged(cfg, bandIndex, old(shards)[i], now)]
      ensures removed == |old(shards)[i]| - |shards[i]|
    {
      hide Stale, Flat;
      ghost var all := shards[i];
      var m := shards[i];
      var left := m.Keys;
      removed := 0;
      assert m == all - {};
      while left != {}
        invariant left <= all.Keys
        invariant forall k :: k in m <==> k in all && (k in left || !Stale(cfg, bandIndex, k, all[k], now))
        invariant forall k :: k in m ==> m[k] == all[k]
        invariant removed == |all| - |m|
        decreases |left|
      {
        var k: uint64 :| k in left;
        left := left - {k};
        if Stale(cfg, bandIndex, k, m[k], now) {
          assert m.Keys == (m - {k}).Keys + {k};
          m := m - {k};
          removed := removed + 1;
        }
      }
      assert m == Purged(cfg, bandIndex, all, now);
      shards := shards[i := m];
    }

    /** Compact rebuilds maps that shrank far below their peak; nothing is lost. */
    method Compact(minPeak: int, shrinkRatio: real) returns (compacted: nat)
      requires Valid()
      modifies this
      ensures Valid() && Abs() == old(Abs())
      ensures compacted == ShrunkUpTo(old(shards), old(peaks), minPeak, shrinkRatio, SHARDS)
      ensures forall i :: 0 <= i < SHARDS ==>
                peaks[i] == PeakAfter(|shards[i]|, old(peaks)[i], minPeak, shrinkRatio)
    {
      hide Flat, Sharded, Shrunk, PeakAfter;
      ShardCount(shards);
      compacted := 0;
      for i := 0 to SHARDS
        invariant |peaks| == SHARDS && shards == old(shards)
        invariant forall j :: i <= j < SHARDS ==> peaks[j] == old(peaks)[j]
        invariant forall j :: 0 <= j < i ==>
                    peaks[j] == PeakAfter(|shards[j]|, old(peaks)[j], minPeak, shrinkRatio)
        invariant compacted == ShrunkUpTo(shards, old(peaks), minPeak, shrinkRatio, i)
      {
        var rebuilt := CompactShard(i, minPeak, shrinkRatio);
        if rebuilt { compacted := compacted + 1; }
      }
    }

    method CompactShard(i: nat, minPeak: int, shrinkRatio: real) returns (rebuilt: bool)
      requires i < |shards| && i < |peaks|
      modifies this
      ensures shards == old(shards)
      ensures peaks == old(peaks)[i := PeakAfter(|shards[i]|, old(peaks)[i], minPeak, shrinkRatio)]
      ensures rebuilt <==> Shrunk(|shards[i]|, old(peaks)[i], minPeak, shrinkRatio)
    {
      hide Share;
      var least := if minPeak <= 0 then 1000 else minPeak;
      var ratio := if shrinkRatio <= 0.0 || shrinkRatio >= 1.0 then 0.5 else shrinkRatio;
      var current := |shards[i]|;
      if current > peaks[i] { peaks := peaks[i := current]; }
      var threshold := Share(peaks[i], ratio);
      if peaks[i] >= least && current < threshold {
        var next := map k | k in shards[i] :: shards[i][k];
        assert next == shards[i];
        shards := shards[i := next];
        assert shards == old(shards);
        peaks := peaks[i := |next|];
        return true;
      }
      return false;
    }
  }

  function PeakAfter(size: nat, peak: nat, minPeak: int, shrinkRatio: real): (p: nat) {
    if Shrunk(size, peak, minPeak, shrinkRatio) then size else Max(size, peak)
  }

  /** int(float64(peak) * ratio) for a positive ratio. */
  function Share(peak: nat, ratio: real): (n: int) { (peak as real * ratio).Floor }

  /** A shard so far below its peak that compaction rebuilds it. */
  predicate Shrunk(size: nat, peak: nat, minPeak: int, shrinkRatio: real) {
    var top := Max(size, peak);
    top >= (if minPeak <= 0 then 1000 else minPeak)
    && size < Share(top, if shrinkRatio <= 0.0 || shrinkRatio >= 1.0 then 0.5 else shrinkRatio)
  }

  /** How many of the first n shards compaction rebuilds. */
  function ShrunkUpTo(ss: seq<Buckets>, peaks: seq<nat>, minPeak: int, shrinkRatio: real, n: nat): (c: nat)
    requires n <= |ss| && n <= |peaks|
  {
    if n == 0 then 0 else
      ShrunkUpTo(ss, peaks, minPeak, shrinkRatio, n - 1)
      + if Shrunk(|ss[n - 1]|, peaks[n - 1], minPeak, shrinkRatio) then 1 else 0
  }
}
