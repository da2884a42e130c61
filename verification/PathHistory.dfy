/** What a bucket of the path store holds, by the reports that went into it. */
module PathHistory {
  import opened Common
  import opened Shards
  import opened PathKeys
  import opened PathStats
  import opened PathStore

  predicate FineHit(bi: BandIndex, c: Cells, band: bytes, k: uint64) {
    LookupBand(bi, band).Some? && ValidPair(c.receiver, c.sender)
    && PackKey(c.receiver, c.sender, LookupBand(bi, band).value) == k
  }

  predicate CoarseHit(bi: BandIndex, c: Cells, band: bytes, k: uint64) {
    LookupBand(bi, band).Some? && ValidPair(c.receiverCoarse, c.senderCoarse)
    && PackCoarseKey(c.receiverCoarse, c.senderCoarse, LookupBand(bi, band).value) == k
  }

  /** The report goes into the bucket of key k. */
  predicate KeyHit(cfg: Config, bi: BandIndex, c: Cells, band: bytes, k: uint64) {
    cfg.enabled && (FineHit(bi, c, band, k) || CoarseHit(bi, c, band, k))
  }

  function UpdateOf(cv: Curves, cfg: Config, e: Event): (u: PathStats.Update)
    requires e.Report?
  {
    PathStats.Update(PowerFromDB(cv, cfg, e.db), CappedWeight(cfg, e), e.at)
  }

  /** A purge pass at this instant drops the bucket of a key with these updates: its band is
      listed and goes stale, and the last update is longer ago than that. */
  predicate Drops(cfg: Config, bi: BandIndex, k: uint64, us: seq<PathStats.Update>, at: int) {
    us != [] && BandField(k) < |bi.idxToBand|
    && var staleAfter := StaleAfter(cfg, KeyHalfLife(cfg, bi, k));
       staleAfter > 0 && at - us[|us| - 1].at > staleAfter
  }

  /** The updates of one key since a purge last dropped it, in the order they came. */
  function History(cv: Curves, cfg: Config, bi: BandIndex, es: seq<Event>, k: uint64): (us: seq<PathStats.Update>) {
    if es == [] then [] else
      var n := |es| - 1;
      var before := History(cv, cfg, bi, es[..n], k);
      match es[n]
      case Report(c, band, _, _, _, _) =>
        if KeyHit(cfg, bi, c, band, k) then before + [UpdateOf(cv, cfg, es[n])] else before
      case PurgeStale(at) => if Drops(cfg, bi, k, before, at) then [] else before
  }

  /** The half-life of the band a key decodes to. */
  function KeyHalfLife(cfg: Config, bi: BandIndex, k: uint64): (h: int) {
    if BandField(k) < |bi.idxToBand| then HalfLife(cfg, bi.idxToBand[BandField(k)]) else cfg.defaultHalfLife
  }

  /** A report only ever reaches keys of its own band, and not both ways. */
  lemma HitBand(cfg: Config, bi: BandIndex, c: Cells, band: bytes, k: uint64)
    requires IndexOk(bi) && |bi.idxToBand| <= TWO16 && (FineHit(bi, c, band, k) || CoarseHit(bi, c, band, k))
    ensures k != 0 && KeyHalfLife(cfg, bi, k) == HalfLife(cfg, band)
    ensures !(FineHit(bi, c, band, k) && CoarseHit(bi, c, band, k))
  {
    hide NormalizeBand, PackKey, PackCoarseKey, BandField;
    LookupNames(bi, band);
    var idx := LookupBand(bi, band).value;
    if FineHit(bi, c, band, k) {
      FineFields(c.receiver, c.sender, idx);
    }
    if CoarseHit(bi, c, band, k) {
      CoarseFields(c.receiverCoarse, c.senderCoarse, idx);
    }
  }

  /** A report updates the buckets it hits, once each, and no other. */
  lemma ReportKey(cv: Curves, cfg: Config, bi: BandIndex, m: Buckets, e: Event, k: uint64)
    requires IndexOk(bi) && |bi.idxToBand| <= TWO16 && e.Report?
    ensures Get(PathStore.Step(cv, cfg, bi, m, e), k) ==
            if KeyHit(cfg, bi, e.cells, e.band, k)
            then var u := UpdateOf(cv, cfg, e);
                 Some(Updated(cv, Get(m, k), u.power, u.weight, u.at, KeyHalfLife(cfg, bi, k)))
            else Get(m, k)
  {
    hide Updated, PackKey, PackCoarseKey, HalfLife, PowerFromDB, CappedWeight, KeyHalfLife, LookupBand;
    if FineHit(bi, e.cells, e.band, k) || CoarseHit(bi, e.cells, e.band, k) {
      HitBand(cfg, bi, e.cells, e.band, k);
    }
  }

  /** After every run each bucket is the fold of its own reports since a purge last dropped it,
      at the half-life of its band. */
  lemma {:induction false} BucketIsFold(cv: Curves, cfg: Config, bi: BandIndex, es: seq<Event>, k: uint64)
    requires IndexOk(bi) && |bi.idxToBand| <= TWO16
    ensures Get(PathStore.Run(cv, cfg, bi, es), k)
            == Fold(cv, KeyHalfLife(cfg, bi, k), History(cv, cfg, bi, es, k))
  {
    hide PathStore.Step, Updated, KeyHit, KeyHalfLife, UpdateOf, IndexOk, Drops;
    if es != [] {
      var n := |es| - 1;
      var m, before := PathStore.Run(cv, cfg, bi, es[..n]), History(cv, cfg, bi, es[..n], k);
      BucketIsFold(cv, cfg, bi, es[..n], k);
      if es[n].Report? {
        ReportKey(cv, cfg, bi, m, es[n], k);
        assert (before + [UpdateOf(cv, cfg, es[n])])[..|before|] == before;
      } else {
        PurgeKey(cv, cfg, bi, m, es[n], k, before);
      }
    }
  }

  /** A purge drops a bucket exactly when its updates say so. */
  lemma PurgeKey(cv: Curves, cfg: Config, bi: BandIndex, m: Buckets, e: Event, k: uint64,
                 us: seq<PathStats.Update>)
    requires e.PurgeStale? && Get(m, k) == Fold(cv, KeyHalfLife(cfg, bi, k), us)
    ensures Get(PathStore.Step(cv, cfg, bi, m, e), k) == if Drops(cfg, bi, k, us, e.at) then None else Get(m, k)
  {
    hide HalfLife, StaleAfter, BandField;
    FoldLast(cv, KeyHalfLife(cfg, bi, k), us);
  }

  lemma FoldLast(cv: Curves, h: int, us: seq<PathStats.Update>)
    ensures Fold(cv, h, us).Some? <==> us != []
    ensures us != [] ==> Fold(cv, h, us).value.lastUpdate == us[|us| - 1].at
  {
    hide Times, DecayFactor;
  }

  /** With reports of positive weight at nondecreasing times, a bucket is the closed form: each
      report's power and weight decayed by its own age. */
  lemma BucketClosedForm(cv: Curves, cfg: Config, bi: BandIndex, es: seq<Event>, k: uint64)
    requires RatesOk(cv) && IndexOk(bi) && |bi.idxToBand| <= TWO16
    requires var us := History(cv, cfg, bi, es, k); us != [] && Ordered(us) && Weighty(us)
    ensures var us, h := History(cv, cfg, bi, es, k), KeyHalfLife(cfg, bi, k);
            var t := us[|us| - 1].at;
            Get(PathStore.Run(cv, cfg, bi, es), k)
            == Some(Bucket(SumAt(cv, h, us, true, t), SumAt(cv, h, us, false, t), t))
  {
    hide SumAt, Fold, History, KeyHalfLife;
    BucketIsFold(cv, cfg, bi, es, k);
    ClosedForm(cv, KeyHalfLife(cfg, bi, k), History(cv, cfg, bi, es, k));
  }
}
