/** The path store over its bucket map, and the predictor's bounds over whole runs. */
module PathStore {
  import opened Common
  import opened PathKeys
  import opened Shards
  import opened PathStats

  /** The tuning the store and the predictor read, after normalization. */
  datatype Config = Config(
    enabled: bool, defaultHalfLife: int, bandHalfLife: map<bytes, int>,
    staleAfterSeconds: int, staleMultiplier: real,
    minEffectiveWeight: real, minFineWeight: real, fineOnlyWeight: real, reverseHintDiscount: real,
    mergeReceive: real, mergeTransmit: real, beaconWeightCap: real,
    clampMin: real, clampMax: real, powerLUT: seq<real>, lutMinDB: real, lutStepDB: real,
    noiseDivisors: map<real, real>)

  type Buckets = Table<Bucket>

  /** The four cells of a directional lookup. */
  datatype Cells = Cells(receiver: CellID, sender: CellID, receiverCoarse: CellID, senderCoarse: CellID)

  function HalfLife(cfg: Config, band: bytes): (h: int) {
    var key := NormalizeBand(band);
    if key in cfg.bandHalfLife && cfg.bandHalfLife[key] > 0 then cfg.bandHalfLife[key] else cfg.defaultHalfLife
  }

  function Ceil(x: real): (n: int) { -((-x).Floor) }

  function StaleAfter(cfg: Config, h: int): (s: int) {
    if cfg.staleMultiplier > 0.0 && h > 0 then Max(Ceil(h as real * cfg.staleMultiplier), 1)
    else if cfg.staleAfterSeconds <= 0 then 0
    else cfg.staleAfterSeconds
  }

  // ---------------------------------------------------------------- update

  function BucketUpdated(cv: Curves, m: Buckets, k: uint64, power: real, weight: real, now: int, h: int): (r: Buckets) {
    if k == 0 then m else m[k := Updated(cv, Get(m, k), power, weight, now, h)]
  }

  predicate ValidPair(a: CellID, b: CellID) { a != INVALID_CELL && b != INVALID_CELL }

  /** Store.Update: the fine bucket, the coarse bucket, each when its cells are known. */
  function Update(cv: Curves, cfg: Config, bi: BandIndex, m: Buckets, c: Cells, band: bytes,
                  power: real, weight: real, now: int): (r: Buckets) {
    var idx := LookupBand(bi, band);
    if !cfg.enabled || idx.None? then m else
      var h := HalfLife(cfg, band);
      var fine := if ValidPair(c.receiver, c.sender)
                  then BucketUpdated(cv, m, PackKey(c.receiver, c.sender, idx.value), power, weight, now, h) else m;
      if ValidPair(c.receiverCoarse, c.senderCoarse)
      then BucketUpdated(cv, fine, PackCoarseKey(c.receiverCoarse, c.senderCoarse, idx.value), power, weight, now, h)
      else fine
  }

  // ---------------------------------------------------------------- lookup

  function SampleKey(cv: Curves, cfg: Config, m: Buckets, k: uint64, h: int, now: int): (s: Sample) {
    if k == 0 then NO_SAMPLE else SampleOf(cv, Get(m, k), h, StaleAfter(cfg, h), now)
  }

  function Lookup(cv: Curves, cfg: Config, bi: BandIndex, m: Buckets, c: Cells, band: bytes, now: int)
    : (r: (Sample, Sample))
  {
    var idx := LookupBand(bi, band);
    if !cfg.enabled || idx.None? then (NO_SAMPLE, NO_SAMPLE) else
      var h := HalfLife(cfg, band);
      (if ValidPair(c.receiver, c.sender)
       then SampleKey(cv, cfg, m, PackKey(c.receiver, c.sender, idx.value), h, now) else NO_SAMPLE,
       if ValidPair(c.receiverCoarse, c.senderCoarse)
       then SampleKey(cv, cfg, m, PackCoarseKey(c.receiverCoarse, c.senderCoarse, idx.value), h, now) else NO_SAMPLE)
  }

  // ---------------------------------------------------------------- purge

  /** PurgeStale's test on one entry, by the band its key carries. */
  predicate Stale(cfg: Config, bi: BandIndex, k: uint64, b: Bucket, now: int) {
    var idx := BandField(k);
    idx < |bi.idxToBand|
    && var staleAfter := StaleAfter(cfg, HalfLife(cfg, bi.idxToBand[idx]));
       staleAfter > 0 && Age(b, now) > staleAfter
  }

  function Purged(cfg: Config, bi: BandIndex, m: Buckets, now: int): (r: Buckets) {
    map k | k in m && !Stale(cfg, bi, k, m[k], now) :: m[k]
  }

  lemma SampleSurvives(cv: Curves, cfg: Config, bi: BandIndex, m: Buckets, k: uint64, band: bytes, idx: uint16,
                       now: int, t: int)
    requires now <= t && BandField(k) == idx && idx < |bi.idxToBand| && bi.idxToBand[idx] == NormalizeBand(band)
    requires NormalizeBand(bi.idxToBand[idx]) == bi.idxToBand[idx]
    ensures SampleKey(cv, cfg, Purged(cfg, bi, m, now), k, HalfLife(cfg, band), t)
         == SampleKey(cv, cfg, m, k, HalfLife(cfg, band), t)
  {
    hide NormalizeBand, StaleAfter, BandField, DecayFactor, Ratio;
    assert HalfLife(cfg, band) == HalfLife(cfg, bi.idxToBand[idx]);
  }

  /** Main purge result: purging at now is invisible to every lookup at now or later,
      for every known band and every four cells. */
  lemma PurgeInvisible(cv: Curves, cfg: Config, bi: BandIndex, m: Buckets, c: Cells, band: bytes, now: int, t: int)
    requires IndexOk(bi) && |bi.idxToBand| <= TWO16 && now <= t
    ensures Lookup(cv, cfg, bi, Purged(cfg, bi, m, now), c, band, t) == Lookup(cv, cfg, bi, m, c, band, t)
  {
    hide NormalizeBand, HalfLife, SampleKey, BandField, Purged, PackKey, PackCoarseKey;
    LookupNames(bi, band);
    var idx := LookupBand(bi, band);
    if idx.Some? {
      if ValidPair(c.receiver, c.sender) {
        FineFields(c.receiver, c.sender, idx.value);
        SampleSurvives(cv, cfg, bi, m, PackKey(c.receiver, c.sender, idx.value), band, idx.value, now, t);
      }
      if ValidPair(c.receiverCoarse, c.senderCoarse) {
        CoarseFields(c.receiverCoarse, c.senderCoarse, idx.value);
        var k := PackCoarseKey(c.receiverCoarse, c.senderCoarse, idx.value);
        SampleSurvives(cv, cfg, bi, m, k, band, idx.value, now, t);
      }
    }
  }

  // ---------------------------------------------------------------- powers

  /** math.Round: halves away from zero. */
  function Round(x: real): (n: int) { if x >= 0.0 then (x + 0.5).Floor else -((-x + 0.5).Floor) }

  function Clamp(v: real, lo: real, hi: real): (r: real) { if v < lo then lo else if v > hi then hi else v }

  function PowerFromDB(cv: Curves, cfg: Config, db: real): (p: real) {
    var clamped := Clamp(db, cfg.clampMin, cfg.clampMax);
    if cfg.lutStepDB <= 0.0 || cfg.powerLUT == [] then cv.toPower(clamped)
    else cfg.powerLUT[LutIndex(cfg, clamped)]
  }

  /** The table entry nearest to a level. */
  function LutIndex(cfg: Config, db: real): (i: nat)
    requires cfg.lutStepDB > 0.0 && cfg.powerLUT != []
    ensures i < |cfg.powerLUT|
  {
    var idx := Round((db - cfg.lutMinDB) / cfg.lutStepDB);
    if idx < 0 then 0 else if idx >= |cfg.powerLUT| then |cfg.powerLUT| - 1 else idx
  }

  /** 10^(db/10): positive, increasing, one at zero. */
  ghost predicate PowersOk(cv: Curves) {
    && (forall x: real, y: real :: x <= y ==> cv.toPower(x) <= cv.toPower(y))
    && (forall x: real :: cv.toPower(x) > 0.0)
    && cv.toPower(0.0) == 1.0
  }

  /** The level the i-th table entry stands for. */
  function Level(minDB: real, step: real, i: nat): (db: real) { minDB + i as real * step }

  /** What normalize and buildCaches leave behind. */
  ghost predicate Normalized(cv: Curves, cfg: Config) {
    && cfg.mergeReceive > 0.0 && cfg.mergeTransmit > 0.0 && cfg.mergeReceive + cfg.mergeTransmit == 1.0
    && cfg.minEffectiveWeight > 0.0 && cfg.beaconWeightCap > 0.0 && cfg.clampMin < cfg.clampMax
    && (forall i :: 0 <= i < |cfg.powerLUT| ==>
          cfg.powerLUT[i] == cv.toPower(Level(cfg.lutMinDB, cfg.lutStepDB, i)))
    && (forall p :: p in cfg.noiseDivisors ==> cfg.noiseDivisors[p] == cv.toPower(p))
  }

  /** The powers of the two clamp limits. */
  function LowPower(cv: Curves, cfg: Config): (p: real) { PowerFromDB(cv, cfg, cfg.clampMin) }

  function HighPower(cv: Curves, cfg: Config): (p: real) { PowerFromDB(cv, cfg, cfg.clampMax) }

  /** Every report's power lies between the powers of the two clamp limits. */
  lemma PowerRange(cv: Curves, cfg: Config, db: real)
    requires PowersOk(cv) && Normalized(cv, cfg)
    ensures 0.0 < LowPower(cv, cfg) <= PowerFromDB(cv, cfg, db) <= HighPower(cv, cfg)
  {
    var c := Clamp(db, cfg.clampMin, cfg.clampMax);
    ClampRange(db, cfg.clampMin, cfg.clampMax);
    PowerMono(cv, cfg, cfg.clampMin, c);
    PowerMono(cv, cfg, c, cfg.clampMax);
  }

  /** Within the clamp limits a higher level never gets a lower power. */
  lemma PowerMono(cv: Curves, cfg: Config, x: real, y: real)
    requires PowersOk(cv) && Normalized(cv, cfg) && cfg.clampMin <= x <= y <= cfg.clampMax
    ensures 0.0 < PowerFromDB(cv, cfg, x) <= PowerFromDB(cv, cfg, y)
  {
    if !(cfg.lutStepDB <= 0.0 || cfg.powerLUT == []) {
      RoundMono(x - cfg.lutMinDB, y - cfg.lutMinDB, cfg.lutStepDB);
      hide Round;
      LutOrdered(cv, cfg, LutIndex(cfg, x), LutIndex(cfg, y));
    }
  }

  lemma RoundMono(x: real, y: real, step: real)
    requires x <= y && step > 0.0
    ensures Round(x / step) <= Round(y / step)
  {
    assert x / step <= y / step;
  }

  lemma ClampRange(v: real, lo: real, hi: real)
    requires lo <= hi
    ensures lo <= Clamp(v, lo, hi) <= hi
  {
  }

  lemma LutOrdered(cv: Curves, cfg: Config, i: nat, j: nat)
    requires PowersOk(cv) && Normalized(cv, cfg) && i <= j < |cfg.powerLUT| && cfg.lutStepDB > 0.0
    ensures 0.0 < cfg.powerLUT[i] <= cfg.powerLUT[j]
  {
    TimesMono(i as real, j as real, cfg.lutStepDB);
  }

  // ---------------------------------------------------------------- prediction

  function SelectSample(fine: Sample, coarse: Sample, minFine: real, fineOnly: real): (s: Sample) {
    if !(coarse.weight > 0.0) then (if fine.weight > 0.0 then fine else NO_SAMPLE)
    else if !(fine.weight > 0.0) then coarse
    else if fineOnly > 0.0 && fine.weight >= fineOnly then fine
    else if minFine > 0.0 && fine.weight < minFine then coarse
    else BlendRatio(Times(fine.value, fine.weight) + Times(coarse.value, coarse.weight), fine.weight + coarse.weight,
                Min(fine.age, coarse.age))
  }

  function BlendRatio(power: real, weight: real, age: int): (s: Sample) {
    if weight <= 0.0 then NO_SAMPLE else Sample(power / weight, weight, age)
  }

  function NoiseDivisor(cv: Curves, cfg: Config, penalty: real): (d: real) {
    if penalty <= 0.0 then 1.0
    else if penalty in cfg.noiseDivisors && cfg.noiseDivisors[penalty] > 0.0 then cfg.noiseDivisors[penalty]
    else cv.toPower(penalty)
  }

  function ApplyNoise(cv: Curves, cfg: Config, power: real, penalty: real): (p: real) {
    if power <= 0.0 || penalty <= 0.0 then power else
      var d := NoiseDivisor(cv, cfg, penalty);
      if d <= 0.0 then power else power / d
  }

  /** mergeSamples: none when neither direction has data. */
  function MergeSamples(cv: Curves, cfg: Config, receive: Sample, transmit: Sample, penalty: real)
    : (r: Option<(real, real)>)
  {
    var hasR, hasT := receive.weight > 0.0, transmit.weight > 0.0;
    if !hasR && !hasT then None else
      var rp := if hasR && penalty > 0.0 then ApplyNoise(cv, cfg, receive.value, penalty) else receive.value;
      if hasR && hasT then
        Some((Times(cfg.mergeReceive, rp) + Times(cfg.mergeTransmit, transmit.value),
              Times(cfg.mergeReceive, receive.weight) + Times(cfg.mergeTransmit, transmit.weight)))
      else if hasR then Some((rp, Times(receive.weight, cfg.reverseHintDiscount)))
      else Some((transmit.value, Times(transmit.weight, cfg.reverseHintDiscount)))
  }

  function Flip(c: Cells): (r: Cells) { Cells(c.sender, c.receiver, c.senderCoarse, c.receiverCoarse) }

  /** Predict: a power only when the merged evidence is heavy enough. */
  function Predict(cv: Curves, cfg: Config, bi: BandIndex, m: Buckets, c: Cells, band: bytes, penalty: real, now: int)
    : (r: Option<real>)
  {
    if !cfg.enabled then None else
      var (rf, rc) := Lookup(cv, cfg, bi, m, c, band, now);
      var (tf, tc) := Lookup(cv, cfg, bi, m, Flip(c), band, now);
      var merged := MergeSamples(cv, cfg, SelectSample(rf, rc, cfg.minFineWeight, cfg.fineOnlyWeight),
                                 SelectSample(tf, tc, cfg.minFineWeight, cfg.fineOnlyWeight), penalty);
      if merged.Some? && merged.value.1 >= cfg.minEffectiveWeight then Some(merged.value.0) else None
  }

  ghost predicate AllWithin(m: Buckets, lo: real, hi: real) {
    forall k :: k in m ==> Within(m[k], lo, hi)
  }

  lemma LookupWithin(cv: Curves, cfg: Config, bi: BandIndex, m: Buckets, c: Cells, band: bytes, now: int,
                     lo: real, hi: real)
    requires RatesOk(cv) && AllWithin(m, lo, hi)
    ensures var (f, g) := Lookup(cv, cfg, bi, m, c, band, now);
            SampleWithin(f, lo, hi) && SampleWithin(g, lo, hi)
  {
    hide NormalizeBand, HalfLife, SampleKey, PackKey, PackCoarseKey, Within;
    forall k: uint64, h: int ensures SampleWithin(SampleKey(cv, cfg, m, k, h, now), lo, hi) {
      SampleKeyWithin(cv, cfg, m, k, h, now, lo, hi);
    }
  }

  lemma SampleKeyWithin(cv: Curves, cfg: Config, m: Buckets, k: uint64, h: int, now: int, lo: real, hi: real)
    requires RatesOk(cv) && AllWithin(m, lo, hi)
    ensures SampleWithin(SampleKey(cv, cfg, m, k, h, now), lo, hi)
  {
    hide SampleOf, Within, StaleAfter;
    if k != 0 { SampleIsWithin(cv, Get(m, k), h, StaleAfter(cfg, h), now, lo, hi); }
  }

  lemma SelectWithin(f: Sample, g: Sample, minFine: real, fineOnly: real, lo: real, hi: real)
    requires SampleWithin(f, lo, hi) && SampleWithin(g, lo, hi)
    ensures SampleWithin(SelectSample(f, g, minFine, fineOnly), lo, hi)
  {
    hide Times, MeanWithin;
    if f.weight > 0.0 && g.weight > 0.0 {
      PartWithin(f.value, f.weight, lo, hi);
      PartWithin(g.value, g.weight, lo, hi);
      MeanSum(Times(f.value, f.weight), f.weight, Times(g.value, g.weight), g.weight, lo, hi);
      QuotientBounds(lo, hi, Times(f.value, f.weight) + Times(g.value, g.weight), f.weight + g.weight);
    }
  }

  lemma MeanSum(p: real, w: real, q: real, v: real, lo: real, hi: real)
    requires MeanWithin(p, w, lo, hi) && MeanWithin(q, v, lo, hi)
    ensures MeanWithin(p + q, w + v, lo, hi)
  {
    hide Times;
    Distribute(lo, w, v);
    Distribute(hi, w, v);
  }

  lemma DivisorAtLeastOne(cv: Curves, cfg: Config, penalty: real)
    requires PowersOk(cv) && Normalized(cv, cfg)
    ensures NoiseDivisor(cv, cfg, penalty) >= 1.0
  {
    if penalty > 0.0 { assert cv.toPower(0.0) <= cv.toPower(penalty); }
  }

  lemma DivideBounds(x: real, d: real, lo: real, hi: real)
    requires 0.0 < lo <= x <= hi && d >= 1.0
    ensures lo / d <= x / d <= hi && lo / d <= x
  {
    var a, b := lo / d, x / d;
    assert a * d == lo && b * d == x;
    assert a > b ==> (a - b) * d > 0.0;
    assert x * d >= x;
    assert b > x ==> (b - x) * d > 0.0;
  }

  /** A convex combination of two values stays between their common bounds. */
  lemma ConvexBounds(a: real, b: real, x: real, y: real, lo: real, hi: real)
    requires a > 0.0 && b > 0.0 && a + b == 1.0 && lo <= x <= hi && lo <= y <= hi
    ensures lo <= Times(a, x) + Times(b, y) <= hi
  {
    TimesMono(lo, x, a);
    TimesMono(x, hi, a);
    TimesMono(lo, y, b);
    TimesMono(y, hi, b);
    TimesCommutes(a, x);
    TimesCommutes(b, y);
    Distribute(lo, a, b);
    Distribute(hi, a, b);
    TimesOne(lo, a + b);
    TimesOne(hi, a + b);
    hide Times;
  }

  lemma TimesCommutes(a: real, b: real)
    ensures Times(a, b) == Times(b, a)
  {
  }

  lemma NoiseBounds(cv: Curves, cfg: Config, x: real, penalty: real, lo: real, hi: real)
    requires PowersOk(cv) && Normalized(cv, cfg) && 0.0 < lo <= x <= hi
    ensures var d := NoiseDivisor(cv, cfg, penalty);
            d >= 1.0 && lo / d <= x && lo / d <= ApplyNoise(cv, cfg, x, penalty) <= hi
  {
    DivisorAtLeastOne(cv, cfg, penalty);
    DivideBounds(x, NoiseDivisor(cv, cfg, penalty), lo, hi);
  }

  lemma MergeWithin(cv: Curves, cfg: Config, r: Sample, t: Sample, penalty: real, lo: real, hi: real)
    requires PowersOk(cv) && Normalized(cv, cfg) && 0.0 < lo <= hi
    requires SampleWithin(r, lo, hi) && SampleWithin(t, lo, hi)
    ensures var d := NoiseDivisor(cv, cfg, penalty);
            d >= 1.0
            && (MergeSamples(cv, cfg, r, t, penalty).Some? ==>
                  lo / d <= MergeSamples(cv, cfg, r, t, penalty).value.0 <= hi)
  {
    var d := NoiseDivisor(cv, cfg, penalty);
    DivisorAtLeastOne(cv, cfg, penalty);
    DivideBounds(lo, d, lo, hi);
    if t.weight > 0.0 { DivideBounds(t.value, d, lo, hi); }
    if r.weight > 0.0 {
      NoiseBounds(cv, cfg, r.value, penalty, lo, hi);
      hide Times, NoiseDivisor, ApplyNoise, Normalized, PowersOk;
      var rp := if penalty > 0.0 then ApplyNoise(cv, cfg, r.value, penalty) else r.value;
      if t.weight > 0.0 {
        MergeWeights(cv, cfg);
        ConvexBounds(cfg.mergeReceive, cfg.mergeTransmit, rp, t.value, lo / d, hi);
      }
    }
  }

  lemma MergeWeights(cv: Curves, cfg: Config)
    requires Normalized(cv, cfg)
    ensures cfg.mergeReceive > 0.0 && cfg.mergeTransmit > 0.0 && cfg.mergeReceive + cfg.mergeTransmit == 1.0
  {
  }

  /** Through decay, blending and merging a prediction stays between the lowest power
      over the noise divisor and the highest power. */
  lemma PredictWithin(cv: Curves, cfg: Config, bi: BandIndex, m: Buckets, c: Cells, band: bytes,
                      penalty: real, now: int, lo: real, hi: real)
    requires RatesOk(cv) && PowersOk(cv) && Normalized(cv, cfg) && 0.0 < lo <= hi && AllWithin(m, lo, hi)
    ensures var d := NoiseDivisor(cv, cfg, penalty);
            d >= 1.0
            && (Predict(cv, cfg, bi, m, c, band, penalty, now).Some? ==>
                  lo / d <= Predict(cv, cfg, bi, m, c, band, penalty, now).value <= hi)
  {
    hide Lookup, SelectSample, MergeSamples, NoiseDivisor, Normalized, PowersOk, RatesOk, AllWithin;
    var (rf, rc) := Lookup(cv, cfg, bi, m, c, band, now);
    var (tf, tc) := Lookup(cv, cfg, bi, m, Flip(c), band, now);
    LookupWithin(cv, cfg, bi, m, c, band, now, lo, hi);
    LookupWithin(cv, cfg, bi, m, Flip(c), band, now, lo, hi);
    SelectWithin(rf, rc, cfg.minFineWeight, cfg.fineOnlyWeight, lo, hi);
    SelectWithin(tf, tc, cfg.minFineWeight, cfg.fineOnlyWeight, lo, hi);
    MergeWithin(cv, cfg, SelectSample(rf, rc, cfg.minFineWeight, cfg.fineOnlyWeight),
                SelectSample(tf, tc, cfg.minFineWeight, cfg.fineOnlyWeight), penalty, lo, hi);
  }

  // ---------------------------------------------------------------- runs

  /** A report reaches the predictor, or a purge pass runs. */
  datatype Event =
    | Report(cells: Cells, band: bytes, db: real, weight: real, isBeacon: bool, at: int)
    | PurgeStale(at: int)

  function CappedWeight(cfg: Config, e: Event): (w: real)
    requires e.Report?
  {
    if e.isBeacon && cfg.beaconWeightCap > 0.0 && e.weight > cfg.beaconWeightCap then cfg.beaconWeightCap else e.weight
  }

  function Step(cv: Curves, cfg: Config, bi: BandIndex, m: Buckets, e: Event): (r: Buckets) {
    match e
    case Report(c, band, db, _, _, at) =>
      Update(cv, cfg, bi, m, c, band, PowerFromDB(cv, cfg, db), CappedWeight(cfg, e), at)
    case PurgeStale(at) => Purged(cfg, bi, m, at)
  }

  function Run(cv: Curves, cfg: Config, bi: BandIndex, es: seq<Event>): (m: Buckets) {
    if es == [] then map[] else Step(cv, cfg, bi, Run(cv, cfg, bi, es[..|es| - 1]), es[|es| - 1])
  }

  lemma BucketUpdatedWithin(cv: Curves, m: Buckets, k: uint64, power: real, weight: real, now: int, h: int,
                            lo: real, hi: real)
    requires RatesOk(cv) && AllWithin(m, lo, hi) && weight > 0.0 && lo <= power <= hi
    ensures AllWithin(BucketUpdated(cv, m, k, power, weight, now, h), lo, hi)
  {
    hide Within, Updated;
    UpdateWithin(cv, Get(m, k), power, weight, now, h, lo, hi);
  }

  lemma StepWithin(cv: Curves, cfg: Config, bi: BandIndex, m: Buckets, e: Event)
    requires RatesOk(cv) && PowersOk(cv) && Normalized(cv, cfg)
    requires AllWithin(m, LowPower(cv, cfg), HighPower(cv, cfg))
    requires e.Report? ==> e.weight > 0.0
    ensures AllWithin(Step(cv, cfg, bi, m, e), LowPower(cv, cfg), HighPower(cv, cfg))
  {
    var lo, hi := LowPower(cv, cfg), HighPower(cv, cfg);
    match e
    case PurgeStale(at) =>
    case Report(c, band, db, _, _, at) =>
      PowerRange(cv, cfg, db);
      var w, p := CappedWeight(cfg, e), PowerFromDB(cv, cfg, db);
      assert w > 0.0;
      hide PowerFromDB, BucketUpdated, Normalized, PowersOk, RatesOk, AllWithin;
      hide PackKey, PackCoarseKey, NormalizeBand, HalfLife;
      forall m: Buckets, k: uint64, h: int | AllWithin(m, lo, hi)
        ensures AllWithin(BucketUpdated(cv, m, k, p, w, at, h), lo, hi)
      {
        BucketUpdatedWithin(cv, m, k, p, w, at, h, lo, hi);
      }
  }

  lemma {:induction false} RunWithin(cv: Curves, cfg: Config, bi: BandIndex, es: seq<Event>)
    requires RatesOk(cv) && PowersOk(cv) && Normalized(cv, cfg)
    requires forall i :: 0 <= i < |es| && es[i].Report? ==> es[i].weight > 0.0
    ensures AllWithin(Run(cv, cfg, bi, es), LowPower(cv, cfg), HighPower(cv, cfg))
  {
    hide Step, LowPower, HighPower, Within, RatesOk, PowersOk, Normalized;
    if es != [] {
      RunWithin(cv, cfg, bi, es[..|es| - 1]);
      StepWithin(cv, cfg, bi, Run(cv, cfg, bi, es[..|es| - 1]), es[|es| - 1]);
    }
  }

  /** Main bound: after every run of positive-weight reports in any time order, with any
      purges between them, a prediction at any time lies between the lowest power over
      the noise divisor and the highest power. */
  lemma RunPredictsWithin(cv: Curves, cfg: Config, bi: BandIndex, es: seq<Event>, c: Cells, band: bytes,
                          penalty: real, now: int)
    requires RatesOk(cv) && PowersOk(cv) && Normalized(cv, cfg)
    requires forall i :: 0 <= i < |es| && es[i].Report? ==> es[i].weight > 0.0
    ensures var d := NoiseDivisor(cv, cfg, penalty);
            var p := Predict(cv, cfg, bi, Run(cv, cfg, bi, es), c, band, penalty, now);
            d >= 1.0 && (p.Some? ==> LowPower(cv, cfg) / d <= p.value <= HighPower(cv, cfg))
  {
    PowerRange(cv, cfg, 0.0);
    hide Run, Predict, LowPower, HighPower, AllWithin, RatesOk, PowersOk, Normalized, NoiseDivisor;
    RunWithin(cv, cfg, bi, es);
    PredictWithin(cv, cfg, bi, Run(cv, cfg, bi, es), c, band, penalty, now, LowPower(cv, cfg), HighPower(cv, cfg));
  }
}
