/** What a prediction is, by the reports behind it: four histories, one per direction and
    resolution, blended and merged. */
module PathPredict {
  import opened Common
  import opened Shards
  import opened Text
  import opened PathKeys
  import opened PathStats
  import opened PathStore
  import opened PathHistory

  /** What a path's reports amount to at an instant: a mean power and how much it weighs. */
  datatype Evidence = Evidence(power: real, weight: real)

  /** A bucket's mean, weighing less with age, until it goes stale. */
  function EvidenceOf(cv: Curves, b: Option<Bucket>, h: int, staleAfter: int, now: int): (e: Option<Evidence>)
    requires b.Some? ==> b.value.weight != 0.0
  {
    if b.None? then None else
      var age := if now < b.value.lastUpdate then 0 else now - b.value.lastUpdate;
      if staleAfter > 0 && age > staleAfter then None
      else Some(Evidence(b.value.sumPower / b.value.weight, Times(b.value.weight, DecayFactor(cv, age, h))))
  }

  /** The same from ordered reports: both sums, each report decayed by its own age. */
  function FromReports(cv: Curves, us: seq<PathStats.Update>, h: int, staleAfter: int, now: int): (e: Option<Evidence>)
    requires us != [] ==> SumAt(cv, h, us, false, us[|us| - 1].at) != 0.0
  {
    if us == [] then None else
      var t := us[|us| - 1].at;
      var age := if now < t then 0 else now - t;
      if staleAfter > 0 && age > staleAfter then None
      else Some(Evidence(SumAt(cv, h, us, true, t) / SumAt(cv, h, us, false, t),
                         Times(SumAt(cv, h, us, false, t), DecayFactor(cv, age, h))))
  }

  /** Fine evidence alone when it is heavy enough, coarse alone while it is too light, both by
      weight in between. */
  function Blend(cfg: Config, fine: Option<Evidence>, coarse: Option<Evidence>): (e: Option<Evidence>) {
    if fine.None? then coarse
    else if coarse.None? then fine
    else
      var f, c := fine.value, coarse.value;
      if cfg.fineOnlyWeight > 0.0 && f.weight >= cfg.fineOnlyWeight then fine
      else if cfg.minFineWeight > 0.0 && f.weight < cfg.minFineWeight then coarse
      else if f.weight + c.weight == 0.0 then None
      else Some(Evidence((Times(f.power, f.weight) + Times(c.power, c.weight)) / (f.weight + c.weight),
                         f.weight + c.weight))
  }

  /** What is heard of the far station, through local noise. */
  function Heard(cv: Curves, power: real, penalty: real): (p: real)
    requires PowersOk(cv)
  {
    if penalty > 0.0 then power / cv.toPower(penalty) else power
  }

  /** Both directions by their merge weights, or one of them at a discount. */
  ghost function Combine(cv: Curves, cfg: Config, receive: Option<Evidence>, transmit: Option<Evidence>, penalty: real)
    : (e: Option<Evidence>)
    requires PowersOk(cv)
  {
    match (receive, transmit)
    case (None, None) => None
    case (Some(r), None) => Some(Evidence(Heard(cv, r.power, penalty), Times(r.weight, cfg.reverseHintDiscount)))
    case (None, Some(t)) => Some(Evidence(t.power, Times(t.weight, cfg.reverseHintDiscount)))
    case (Some(r), Some(t)) =>
      Some(Evidence(Times(cfg.mergeReceive, Heard(cv, r.power, penalty)) + Times(cfg.mergeTransmit, t.power),
                    Times(cfg.mergeReceive, r.weight) + Times(cfg.mergeTransmit, t.weight)))
  }

  ghost function Verdict(cfg: Config, e: Option<Evidence>): (p: Option<real>) {
    if e.Some? && e.value.weight >= cfg.minEffectiveWeight then Some(e.value.power) else None
  }

  // ---------------------------------------------------------------- samples carry evidence

  /** A sample says what the evidence says. */
  predicate Carries(s: Sample, e: Option<Evidence>) {
    match e
    case None => s.weight == 0.0
    case Some(x) => s.value == x.power > 0.0 && s.weight == x.weight > 0.0
  }

  lemma SampleCarries(cv: Curves, b: Option<Bucket>, h: int, staleAfter: int, now: int)
    requires RatesOk(cv) && (b.Some? ==> b.value.weight > 0.0 && b.value.sumPower > 0.0)
    ensures Carries(SampleOf(cv, b, h, staleAfter, now), EvidenceOf(cv, b, h, staleAfter, now))
  {
    if b.Some? {
      SampleMean(cv, b.value, h, staleAfter, now);
      PositiveQuotient(b.value.sumPower, b.value.weight);
    }
    hide Times, SampleOf, DecayFactor;
    if b.None? { NoBucketNoSample(cv, h, staleAfter, now); }
  }

  lemma NoBucketNoSample(cv: Curves, h: int, staleAfter: int, now: int)
    ensures SampleOf(cv, None, h, staleAfter, now) == NO_SAMPLE
  {
  }

  lemma PositiveQuotient(p: real, w: real)
    requires p > 0.0 && w > 0.0
    ensures p / w > 0.0
  {
  }

  lemma BlendCarries(cfg: Config, f: Sample, c: Sample, fine: Option<Evidence>, coarse: Option<Evidence>)
    requires Carries(f, fine) && Carries(c, coarse)
    ensures Carries(SelectSample(f, c, cfg.minFineWeight, cfg.fineOnlyWeight), Blend(cfg, fine, coarse))
  {
    if fine.Some? && coarse.Some? {
      TimesPositive(f.value, f.weight);
      TimesPositive(c.value, c.weight);
      PositiveQuotient(Times(f.value, f.weight) + Times(c.value, c.weight), f.weight + c.weight);
    }
    hide Times;
  }

  lemma CombineCarries(cv: Curves, cfg: Config, r: Sample, t: Sample, receive: Option<Evidence>,
                       transmit: Option<Evidence>, penalty: real)
    requires PowersOk(cv) && Normalized(cv, cfg) && Carries(r, receive) && Carries(t, transmit)
    ensures MergeSamples(cv, cfg, r, t, penalty)
            == match Combine(cv, cfg, receive, transmit, penalty)
               case None => None
               case Some(e) => Some((e.power, e.weight))
  {
    if penalty > 0.0 { DivisorIs(cv, cfg, penalty); }
    hide Times, NoiseDivisor, Normalized;
  }

  lemma DivisorIs(cv: Curves, cfg: Config, penalty: real)
    requires PowersOk(cv) && Normalized(cv, cfg) && penalty > 0.0
    ensures NoiseDivisor(cv, cfg, penalty) == cv.toPower(penalty) > 0.0
  {
  }

  // ---------------------------------------------------------------- the four histories

  /** The evidence for one key after a run. */
  ghost function KeyEvidence(cv: Curves, cfg: Config, bi: BandIndex, es: seq<Event>, k: uint64, now: int)
    : (e: Option<Evidence>)
  {
    var h := KeyHalfLife(cfg, bi, k);
    var b := Fold(cv, h, History(cv, cfg, bi, es, k));
    if b.Some? && b.value.weight == 0.0 then None else EvidenceOf(cv, b, h, StaleAfter(cfg, h), now)
  }

  /** The evidence that the receiver hears the sender: fine cells and coarse cells blended. */
  ghost function OneWay(cv: Curves, cfg: Config, bi: BandIndex, es: seq<Event>, idx: uint16,
                        receiver: CellID, sender: CellID, receiverCoarse: CellID, senderCoarse: CellID, now: int)
    : (e: Option<Evidence>)
  {
    Blend(cfg,
          if receiver != INVALID_CELL && sender != INVALID_CELL
          then KeyEvidence(cv, cfg, bi, es, PackKey(receiver, sender, idx), now) else None,
          if receiverCoarse != INVALID_CELL && senderCoarse != INVALID_CELL
          then KeyEvidence(cv, cfg, bi, es, PackCoarseKey(receiverCoarse, senderCoarse, idx), now) else None)
  }

  /** After a run of positive-weight reports every bucket has weight and power. */
  lemma BucketPositive(cv: Curves, cfg: Config, bi: BandIndex, es: seq<Event>, k: uint64)
    requires RatesOk(cv) && PowersOk(cv) && Normalized(cv, cfg)
    requires forall i :: 0 <= i < |es| && es[i].Report? ==> es[i].weight > 0.0
    ensures var b := Get(PathStore.Run(cv, cfg, bi, es), k);
            b.Some? ==> b.value.weight > 0.0 && b.value.sumPower > 0.0
  {
    RunWithin(cv, cfg, bi, es);
    PowerRange(cv, cfg, 0.0);
    hide PathStore.Run, Normalized, PowersOk, RatesOk, LowPower, HighPower;
    var b := Get(PathStore.Run(cv, cfg, bi, es), k);
    if b.Some? { TimesPositive(LowPower(cv, cfg), b.value.weight); }
    hide Times;
  }

  /** The sample of a key carries the evidence of its reports. */
  lemma KeyCarries(cv: Curves, cfg: Config, bi: BandIndex, es: seq<Event>, k: uint64, h: int, now: int)
    requires RatesOk(cv) && PowersOk(cv) && Normalized(cv, cfg) && IndexOk(bi) && |bi.idxToBand| <= TWO16
    requires forall i :: 0 <= i < |es| && es[i].Report? ==> es[i].weight > 0.0
    requires k != 0 && KeyHalfLife(cfg, bi, k) == h
    ensures Carries(SampleKey(cv, cfg, PathStore.Run(cv, cfg, bi, es), k, h, now),
                    KeyEvidence(cv, cfg, bi, es, k, now))
  {
    hide PathStore.Run, History, Fold, Normalized, PowersOk, RatesOk, IndexOk, SampleOf, EvidenceOf, KeyHalfLife;
    hide StaleAfter, Carries;
    BucketIsFold(cv, cfg, bi, es, k);
    BucketPositive(cv, cfg, bi, es, k);
    SampleCarries(cv, Get(PathStore.Run(cv, cfg, bi, es), k), h, StaleAfter(cfg, h), now);
  }

  /** Both keys of a listed band carry its half-life. */
  lemma BandKeys(cfg: Config, bi: BandIndex, band: bytes, a: CellID, b: CellID)
    requires IndexOk(bi) && |bi.idxToBand| <= TWO16 && LookupBand(bi, band).Some?
    requires a != INVALID_CELL && b != INVALID_CELL
    ensures var idx := LookupBand(bi, band).value;
            && PackKey(a, b, idx) != 0 && KeyHalfLife(cfg, bi, PackKey(a, b, idx)) == HalfLife(cfg, band)
            && PackCoarseKey(a, b, idx) != 0
            && KeyHalfLife(cfg, bi, PackCoarseKey(a, b, idx)) == HalfLife(cfg, band)
  {
    hide NormalizeBand, PackKey, PackCoarseKey, BandField;
    LookupNames(bi, band);
    FineFields(a, b, LookupBand(bi, band).value);
    CoarseFields(a, b, LookupBand(bi, band).value);
  }

  /** One direction's blended sample carries its blended evidence. */
  lemma DirectionCarries(cv: Curves, cfg: Config, bi: BandIndex, es: seq<Event>, c: Cells, band: bytes, now: int)
    requires RatesOk(cv) && PowersOk(cv) && Normalized(cv, cfg) && IndexOk(bi) && |bi.idxToBand| <= TWO16
    requires forall i :: 0 <= i < |es| && es[i].Report? ==> es[i].weight > 0.0
    requires cfg.enabled && LookupBand(bi, band).Some?
    ensures var (f, g) := Lookup(cv, cfg, bi, PathStore.Run(cv, cfg, bi, es), c, band, now);
            Carries(SelectSample(f, g, cfg.minFineWeight, cfg.fineOnlyWeight),
                    OneWay(cv, cfg, bi, es, LookupBand(bi, band).value, c.receiver, c.sender,
                           c.receiverCoarse, c.senderCoarse, now))
  {
    hide PathStore.Run, KeyEvidence, Blend, SelectSample, SampleKey, PackKey, PackCoarseKey, Normalized, PowersOk;
    hide RatesOk, IndexOk, KeyHalfLife, HalfLife, LookupBand;
    var idx, h := LookupBand(bi, band).value, HalfLife(cfg, band);
    var fine, coarse: Option<Evidence> := None, None;
    if c.receiver != INVALID_CELL && c.sender != INVALID_CELL {
      BandKeys(cfg, bi, band, c.receiver, c.sender);
      KeyCarries(cv, cfg, bi, es, PackKey(c.receiver, c.sender, idx), h, now);
      fine := KeyEvidence(cv, cfg, bi, es, PackKey(c.receiver, c.sender, idx), now);
    }
    if c.receiverCoarse != INVALID_CELL && c.senderCoarse != INVALID_CELL {
      BandKeys(cfg, bi, band, c.receiverCoarse, c.senderCoarse);
      KeyCarries(cv, cfg, bi, es, PackCoarseKey(c.receiverCoarse, c.senderCoarse, idx), h, now);
      coarse := KeyEvidence(cv, cfg, bi, es, PackCoarseKey(c.receiverCoarse, c.senderCoarse, idx), now);
    }
    var (f, g) := Lookup(cv, cfg, bi, PathStore.Run(cv, cfg, bi, es), c, band, now);
    assert Carries(f, fine) && Carries(g, coarse);
    hide Carries;
    BlendCarries(cfg, f, g, fine, coarse);
  }

  /** Main prediction result: after every run of positive-weight reports and purges the prediction
      for user and far station is the verdict on the reports the user received from there combined
      with those received there from the user. Without the feature or the band there is none. */
  lemma PredictionLaw(cv: Curves, cfg: Config, bi: BandIndex, es: seq<Event>, user: CellID, far: CellID,
                      userCoarse: CellID, farCoarse: CellID, band: bytes, penalty: real, now: int)
    requires RatesOk(cv) && PowersOk(cv) && Normalized(cv, cfg) && IndexOk(bi) && |bi.idxToBand| <= TWO16
    requires forall i :: 0 <= i < |es| && es[i].Report? ==> es[i].weight > 0.0
    ensures var p := Predict(cv, cfg, bi, PathStore.Run(cv, cfg, bi, es), Cells(user, far, userCoarse, farCoarse), band,
                             penalty, now);
            if !cfg.enabled || LookupBand(bi, band).None? then p == None else
              var idx := LookupBand(bi, band).value;
              var receive := OneWay(cv, cfg, bi, es, idx, user, far, userCoarse, farCoarse, now);
              var transmit := OneWay(cv, cfg, bi, es, idx, far, user, farCoarse, userCoarse, now);
              p == Verdict(cfg, Combine(cv, cfg, receive, transmit, penalty))
  {
    hide PathStore.Run, OneWay, Combine, SelectSample, MergeSamples, Carries, Normalized, PowersOk, RatesOk, IndexOk;
    var c := Cells(user, far, userCoarse, farCoarse);
    if cfg.enabled {
      if LookupBand(bi, band).Some? {
        hide Lookup, LookupBand;
        var idx := LookupBand(bi, band).value;
        var m := PathStore.Run(cv, cfg, bi, es);
        var d := Cells(far, user, farCoarse, userCoarse);
        DirectionCarries(cv, cfg, bi, es, c, band, now);
        DirectionCarries(cv, cfg, bi, es, d, band, now);
        var (rf, rc) := Lookup(cv, cfg, bi, m, c, band, now);
        var (tf, tc) := Lookup(cv, cfg, bi, m, d, band, now);
        CombineCarries(cv, cfg, SelectSample(rf, rc, cfg.minFineWeight, cfg.fineOnlyWeight),
                       SelectSample(tf, tc, cfg.minFineWeight, cfg.fineOnlyWeight),
                       OneWay(cv, cfg, bi, es, idx, user, far, userCoarse, farCoarse, now),
                       OneWay(cv, cfg, bi, es, idx, far, user, farCoarse, userCoarse, now), penalty);
      } else {
        NothingToMerge(cv, cfg, penalty);
      }
    }
  }

  lemma NothingToMerge(cv: Curves, cfg: Config, penalty: real)
    ensures MergeSamples(cv, cfg, SelectSample(NO_SAMPLE, NO_SAMPLE, cfg.minFineWeight, cfg.fineOnlyWeight),
                         SelectSample(NO_SAMPLE, NO_SAMPLE, cfg.minFineWeight, cfg.fineOnlyWeight), penalty) == None
  {
  }

  /** Of ordered positive reports the evidence is the two decayed sums. */
  lemma EvidenceClosedForm(cv: Curves, cfg: Config, bi: BandIndex, es: seq<Event>, k: uint64, now: int)
    requires RatesOk(cv)
    requires var us := History(cv, cfg, bi, es, k); Ordered(us) && Weighty(us)
    ensures var us, h := History(cv, cfg, bi, es, k), KeyHalfLife(cfg, bi, k);
            && (us != [] ==> SumAt(cv, h, us, false, us[|us| - 1].at) > 0.0)
            && KeyEvidence(cv, cfg, bi, es, k, now) == FromReports(cv, us, h, StaleAfter(cfg, h), now)
  {
    hide History, SumAt, KeyHalfLife, StaleAfter, DecayFactor, Times, Ordered, Weighty, RatesOk;
    var us, h := History(cv, cfg, bi, es, k), KeyHalfLife(cfg, bi, k);
    FoldLast(cv, h, us);
    if us != [] {
      hide Fold;
      ClosedForm(cv, h, us);
      WeightPositive(cv, h, us, us[|us| - 1].at);
    }
  }

  // ---------------------------------------------------------------- thresholds

  /** At the upper threshold fine evidence stands alone; just below the lower one coarse evidence
      does; from the lower to the upper both count, and the mean lies between them. */
  lemma FineThresholds(cfg: Config, f: Evidence, c: Evidence)
    requires f.weight > 0.0 && c.weight > 0.0 && 0.0 < cfg.minFineWeight <= cfg.fineOnlyWeight
    ensures var b := Blend(cfg, Some(f), Some(c));
            && (f.weight >= cfg.fineOnlyWeight ==> b == Some(f))
            && (f.weight < cfg.minFineWeight ==> b == Some(c))
            && (cfg.minFineWeight <= f.weight < cfg.fineOnlyWeight ==>
                  && b.Some? && b.value.weight == f.weight + c.weight
                  && (f.power <= c.power ==> f.power <= b.value.power <= c.power)
                  && (c.power <= f.power ==> c.power <= b.value.power <= f.power))
  {
    if cfg.minFineWeight <= f.weight < cfg.fineOnlyWeight {
      if f.power <= c.power { BetweenMeans(f, c); } else { BetweenMeans(c, f); }
    }
  }

  lemma BetweenMeans(x: Evidence, y: Evidence)
    requires x.weight > 0.0 && y.weight > 0.0 && x.power <= y.power
    ensures var m := (Times(x.power, x.weight) + Times(y.power, y.weight)) / (x.weight + y.weight);
            x.power <= m <= y.power
  {
    var w := x.weight + y.weight;
    var sum := Times(x.power, x.weight) + Times(y.power, y.weight);
    TimesMono(x.power, y.power, x.weight);
    TimesMono(x.power, y.power, y.weight);
    Spread(x.power, x.weight, y.weight);
    Spread(y.power, x.weight, y.weight);
    hide Times;
    QuotientBounds(x.power, y.power, sum, w);
  }

  lemma Spread(p: real, v: real, w: real)
    ensures Times(p, v + w) == Times(p, v) + Times(p, w)
  {
  }

  // ---------------------------------------------------------------- settings

  /** A positive override for the band, however the band is written, is the half-life used;
      otherwise the default is. */
  lemma HalfLifeUsed(cfg: Config, band: bytes, key: bytes)
    requires ToLower(TrimSpace(band)) == key
    ensures key in cfg.bandHalfLife && cfg.bandHalfLife[key] > 0 ==> HalfLife(cfg, band) == cfg.bandHalfLife[key]
    ensures key !in cfg.bandHalfLife || cfg.bandHalfLife[key] <= 0 ==> HalfLife(cfg, band) == cfg.defaultHalfLife
  {
    hide TrimSpace, ToLower;
  }

  /** A positive multiplier decides staleness: that many half-lives, rounded up to a whole second
      and at least one. Without it the fixed time does, and zero or less means never. */
  lemma StaleUsed(cfg: Config, h: int)
    ensures cfg.staleMultiplier > 0.0 && h > 0 ==>
              && StaleAfter(cfg, h) >= 1 && StaleAfter(cfg, h) as real >= h as real * cfg.staleMultiplier
              && ((StaleAfter(cfg, h) - 1) as real < h as real * cfg.staleMultiplier)
    ensures !(cfg.staleMultiplier > 0.0 && h > 0) ==>
              StaleAfter(cfg, h) == if cfg.staleAfterSeconds > 0 then cfg.staleAfterSeconds else 0
  {
    if cfg.staleMultiplier > 0.0 && h > 0 { assert h as real * cfg.staleMultiplier > 0.0; }
  }

  /** Nothing decays backwards in time, at the same instant, or without a half-life. */
  lemma NoDecay(cv: Curves, age: int, h: int)
    requires age <= 0 || h <= 0
    ensures DecayFactor(cv, age, h) == 1.0
  {
  }

  /** A beacon report never adds more than the cap, any other report all its weight. */
  lemma BeaconCapped(cfg: Config, e: Event)
    requires e.Report?
    ensures e.isBeacon && cfg.beaconWeightCap > 0.0 ==>
              CappedWeight(cfg, e) <= cfg.beaconWeightCap && CappedWeight(cfg, e) <= e.weight
              && (CappedWeight(cfg, e) == cfg.beaconWeightCap || CappedWeight(cfg, e) == e.weight)
    ensures !e.isBeacon || cfg.beaconWeightCap <= 0.0 ==> CappedWeight(cfg, e) == e.weight
  {
  }
}
