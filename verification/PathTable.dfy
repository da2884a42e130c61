/** The power table of the path predictor: what buildCaches fills in, and how close the
    table stays to the curve it samples. */
module PathTable {
  import opened PathStats
  import opened PathStore

  const DEFAULT_STEP := 0.1

  function Effective(step: real): (s: real)
    ensures s > 0.0
  {
    if step <= 0.0 then DEFAULT_STEP else step
  }

  /** The table covers the clamp limits, rounded outwards to whole steps. */
  ghost predicate Built(cv: Curves, cfg: Config) {
    && cfg.lutStepDB > 0.0
    && cfg.lutMinDB == Times((cfg.clampMin / cfg.lutStepDB).Floor as real, cfg.lutStepDB)
    && |cfg.powerLUT| == Ceil(cfg.clampMax / cfg.lutStepDB) - (cfg.clampMin / cfg.lutStepDB).Floor + 1
    && forall i :: 0 <= i < |cfg.powerLUT| ==>
         cfg.powerLUT[i] == cv.toPower(Level(cfg.lutMinDB, cfg.lutStepDB, i))
  }

  /** buildCaches, for the table. The limits differ, so the range rounded outwards holds at
      least one step and the fallbacks for an empty range are never taken. */
  method BuildTable(cv: Curves, cfg: Config) returns (r: Config)
    requires cfg.clampMin < cfg.clampMax
    ensures Built(cv, r) && r.lutStepDB == Effective(cfg.lutStepDB)
    ensures r == cfg.(lutStepDB := r.lutStepDB, lutMinDB := r.lutMinDB, powerLUT := r.powerLUT)
  {
    hide Times, Level;
    var step := Effective(cfg.lutStepDB);
    var low, high := (cfg.clampMin / step).Floor, Ceil(cfg.clampMax / step);
    Wider(cfg.clampMin, cfg.clampMax, step);
    var minDB, maxDB := Times(low as real, step), Times(high as real, step);
    WholeSteps(low, high, step);
    var size := Round((maxDB - minDB) / step) + 1;
    var lut: seq<real> := [];
    for i := 0 to size
      invariant |lut| == i
      invariant forall j :: 0 <= j < i ==> lut[j] == cv.toPower(Level(minDB, step, j))
    {
      lut := lut + [cv.toPower(Level(minDB, step, i))];
    }
    r := cfg.(lutStepDB := step, lutMinDB := minDB, powerLUT := lut);
  }

  lemma Wider(lo: real, hi: real, step: real)
    requires lo < hi && step > 0.0
    ensures (lo / step).Floor < Ceil(hi / step)
    ensures (lo / step).Floor as real <= lo / step < hi / step <= Ceil(hi / step) as real
  {
    Quotient(lo, step);
    Quotient(hi, step);
    hide Times;
    if lo / step >= hi / step { TimesMono(hi / step, lo / step, step); }
  }

  lemma Quotient(x: real, step: real)
    requires step > 0.0
    ensures Times(x / step, step) == x
  {
  }

  /** A whole number of steps divides back to that number. */
  lemma WholeSteps(low: int, high: int, step: real)
    requires step > 0.0
    ensures Round((Times(high as real, step) - Times(low as real, step)) / step) == high - low
  {
    var n := (high - low) as real;
    assert Times(high as real, step) - Times(low as real, step) == Times(n, step);
    assert Times(n, step) / step == n;
  }

  /** A reported level's power is that of a level at most half a step from the clamped one. */
  lemma TableNear(cv: Curves, cfg: Config, db: real)
    requires PowersOk(cv) && Built(cv, cfg) && cfg.clampMin < cfg.clampMax
    ensures var c := Clamp(db, cfg.clampMin, cfg.clampMax);
            cv.toPower(c - cfg.lutStepDB / 2.0) <= PowerFromDB(cv, cfg, db) <= cv.toPower(c + cfg.lutStepDB / 2.0)
  {
    var c := Clamp(db, cfg.clampMin, cfg.clampMax);
    ClampRange(db, cfg.clampMin, cfg.clampMax);
    Wider(cfg.clampMin, cfg.clampMax, cfg.lutStepDB);
    hide Clamp, LutIndex, Level;
    Nearest(cfg, c);
    var i := LutIndex(cfg, c);
    assert cfg.powerLUT[i] == cv.toPower(Level(cfg.lutMinDB, cfg.lutStepDB, i));
  }

  /** The table entry chosen for a level within the limits is at most half a step away. */
  lemma Nearest(cfg: Config, c: real)
    requires cfg.lutStepDB > 0.0 && cfg.powerLUT != [] && cfg.clampMin <= c <= cfg.clampMax
    requires cfg.lutMinDB == Times((cfg.clampMin / cfg.lutStepDB).Floor as real, cfg.lutStepDB)
    requires |cfg.powerLUT| == Ceil(cfg.clampMax / cfg.lutStepDB) - (cfg.clampMin / cfg.lutStepDB).Floor + 1
    ensures var at := Level(cfg.lutMinDB, cfg.lutStepDB, LutIndex(cfg, c));
            c - cfg.lutStepDB / 2.0 <= at <= c + cfg.lutStepDB / 2.0
  {
    var step, f := cfg.lutStepDB, (cfg.clampMin / cfg.lutStepDB).Floor;
    var x := (c - cfg.lutMinDB) / step;
    Position(c, f, step);
    Ratios(cfg.clampMin, c, step);
    Ratios(c, cfg.clampMax, step);
    var i := LutIndex(cfg, c);
    assert i == Round(x);
    assert -0.5 <= i as real - x <= 0.5;
    HalfStep(i as real, x, step);
    Quotient(c - cfg.lutMinDB, step);
  }

  lemma Position(c: real, f: int, step: real)
    requires step > 0.0
    ensures (c - Times(f as real, step)) / step == c / step - f as real
  {
    assert Times(f as real, step) / step == f as real;
  }

  lemma Ratios(x: real, y: real, step: real)
    requires x <= y && step > 0.0
    ensures x / step <= y / step
  {
  }

  lemma HalfStep(i: real, x: real, step: real)
    requires step > 0.0 && -0.5 <= i - x <= 0.5
    ensures -step / 2.0 <= i * step - Times(x, step) <= step / 2.0
  {
    assert i * step - Times(x, step) == Times(i - x, step);
    TimesMono(i - x, 0.5, step);
    TimesMono(-0.5, i - x, step);
  }
}
