/** Decaying power statistics of directional paths: buckets, samples and what purging
    them leaves visible. Arithmetic is exact; floating-point rounding is not modelled. */
module PathStats {
  import opened Common

  // ---------------------------------------------------------------- decay

  /** The product as a function of its factors. */
  function Times(a: real, b: real): (c: real) { a * b }

  function Pow(r: real, n: nat): (p: real) {
    if n == 0 then 1.0 else Times(r, Pow(r, n - 1))
  }

  /** The curves the source takes from its math library: rate(h) is the per-second
      factor of half-life h, toPower(db) is 10^(db/10). */
  datatype Curves = Curves(rate: int -> real, toPower: real -> real)

  ghost predicate RatesOk(cv: Curves) {
    forall h: int :: h > 0 ==> 0.0 < cv.rate(h) <= 1.0 && Pow(cv.rate(h), h) == 0.5
  }

  /** decayFactor: negative ages and disabled half-lives do not decay. */
  function DecayFactor(cv: Curves, age: int, halfLife: int): (d: real) {
    if halfLife <= 0 || age <= 0 then 1.0 else Pow(cv.rate(halfLife), age)
  }

  lemma {:induction false} PowRange(r: real, n: nat)
    requires 0.0 < r <= 1.0
    ensures 0.0 < Pow(r, n) <= 1.0
  {
    if n > 0 {
      PowRange(r, n - 1);
      MulRange(r, Pow(r, n - 1));
    }
  }

  lemma MulRange(a: real, b: real)
    requires 0.0 < a <= 1.0 && 0.0 < b <= 1.0
    ensures 0.0 < Times(a, b) <= 1.0
  {
    assert a * b <= 1.0 * b;
  }

  lemma {:induction false} PowAdd(r: real, m: nat, n: nat)
    ensures Pow(r, m + n) == Times(Pow(r, m), Pow(r, n))
  {
    if m > 0 {
      PowAdd(r, m - 1, n);
      TimesAssociates(r, Pow(r, m - 1), Pow(r, n));
      assert m + n - 1 == m - 1 + n;
    }
  }

  lemma TimesAssociates(a: real, b: real, c: real)
    ensures Times(Times(a, b), c) == Times(a, Times(b, c))
  {
  }

  lemma DecayRange(cv: Curves, age: int, h: int)
    requires RatesOk(cv)
    ensures 0.0 < DecayFactor(cv, age, h) <= 1.0
  {
    if h > 0 && age > 0 { PowRange(cv.rate(h), age); }
  }

  /** Waiting twice decays like waiting once for the whole time. */
  lemma DecayAdd(cv: Curves, a: nat, b: nat, h: int)
    ensures DecayFactor(cv, a + b, h) == Times(DecayFactor(cv, a, h), DecayFactor(cv, b, h))
  {
    if h > 0 { PowAdd(cv.rate(h), a, b); }
  }

  /** One half-life halves. */
  lemma DecayHalves(cv: Curves, h: int)
    requires RatesOk(cv) && h > 0
    ensures DecayFactor(cv, h, h) == 0.5
  {
  }

  // ---------------------------------------------------------------- one bucket

  datatype Bucket = Bucket(sumPower: real, weight: real, lastUpdate: int)

  /** updateBucket on the bucket a key has, if any. */
  function Updated(cv: Curves, b: Option<Bucket>, power: real, weight: real, now: int, h: int): (r: Bucket) {
    match b
    case None => Bucket(Times(power, weight), weight, now)
    case Some(b) =>
      var decay := DecayFactor(cv, now - b.lastUpdate, h);
      Accumulated(Times(b.sumPower, decay), Times(b.weight, decay), Times(power, weight), weight, now)
  }

  function Accumulated(oldPower: real, oldWeight: real, power: real, weight: real, now: int): (r: Bucket) {
    if oldWeight + weight <= 0.0 then Bucket(0.0, 0.0, now)
    else Bucket(oldPower + power, oldWeight + weight, now)
  }

  datatype Update = Update(power: real, weight: real, at: int)

  function Fold(cv: Curves, h: int, us: seq<Update>): (b: Option<Bucket>) {
    if us == [] then None else
      var u := us[|us| - 1];
      Some(Updated(cv, Fold(cv, h, us[..|us| - 1]), u.power, u.weight, u.at, h))
  }

  /** What an update adds to the power sum, or to the weight. */
  function Part(u: Update, powers: bool): (x: real) {
    if powers then Times(u.power, u.weight) else u.weight
  }

  /** The sum of all parts, each decayed to time t by its own age. */
  function SumAt(cv: Curves, h: int, us: seq<Update>, powers: bool, t: int): (w: real) {
    if us == [] then 0.0 else
      SumAt(cv, h, us[..|us| - 1], powers, t)
      + Times(Part(us[|us| - 1], powers), DecayFactor(cv, t - us[|us| - 1].at, h))
  }

  predicate Ordered(us: seq<Update>) {
    forall i, j :: 0 <= i < j < |us| ==> us[i].at <= us[j].at
  }

  predicate Weighty(us: seq<Update>) {
    forall i :: 0 <= i < |us| ==> us[i].weight > 0.0
  }

  lemma Scale(a: real, x: real, e: real, d: real)
    ensures Times(a, d) + Times(x, Times(e, d)) == Times(a + Times(x, e), d)
  {
    TimesAssociates(x, e, d);
    assert (a + x * e) * d == a * d + (x * e) * d;
  }

  lemma TimesPositive(a: real, b: real)
    requires a > 0.0 && b > 0.0
    ensures Times(a, b) > 0.0
  {
  }

  lemma TimesOne(x: real, d: real)
    requires d == 1.0
    ensures Times(x, d) == x
  {
  }

  /** Looking later multiplies a sum by the decay of the extra time. */
  lemma {:induction false} SumAges(cv: Curves, h: int, us: seq<Update>, powers: bool, t: int, u: int)
    requires t <= u && forall i :: 0 <= i < |us| ==> us[i].at <= t
    ensures SumAt(cv, h, us, powers, u) == Times(SumAt(cv, h, us, powers, t), DecayFactor(cv, u - t, h))
  {
    hide DecayFactor, Part;
    if us != [] {
      var n := |us| - 1;
      var last := us[n];
      SumAges(cv, h, us[..n], powers, t, u);
      DecayAdd(cv, t - last.at, u - t, h);
      Scale(SumAt(cv, h, us[..n], powers, t), Part(last, powers),
            DecayFactor(cv, t - last.at, h), DecayFactor(cv, u - t, h));
    }
  }

  lemma {:induction false} WeightPositive(cv: Curves, h: int, us: seq<Update>, t: int)
    requires RatesOk(cv) && us != [] && Weighty(us)
    ensures SumAt(cv, h, us, false, t) > 0.0
  {
    hide DecayFactor;
    var n := |us| - 1;
    DecayRange(cv, t - us[n].at, h);
    TimesPositive(us[n].weight, DecayFactor(cv, t - us[n].at, h));
    if n > 0 { WeightPositive(cv, h, us[..n], t); }
  }

  /** Main closed form: for positive-weight updates at nondecreasing times the
      incremental bucket is the pair of decayed sums at its last update. */
  lemma {:induction false} ClosedForm(cv: Curves, h: int, us: seq<Update>)
    requires RatesOk(cv) && us != [] && Ordered(us) && Weighty(us)
    ensures var t := us[|us| - 1].at;
            Fold(cv, h, us) == Some(Bucket(SumAt(cv, h, us, true, t), SumAt(cv, h, us, false, t), t))
  {
    var n := |us| - 1;
    var u := us[n];
    SumNow(cv, h, us, true);
    SumNow(cv, h, us, false);
    if n > 0 {
      var rest := us[..n];
      assert rest[n - 1] == us[n - 1];
      ClosedForm(cv, h, rest);
      SumAges(cv, h, rest, true, us[n - 1].at, u.at);
      SumAges(cv, h, rest, false, us[n - 1].at, u.at);
      WeightPositive(cv, h, us, u.at);
    } else {
      assert us[..n] == [];
    }
  }

  /** At the instant of the last update its own part is undecayed. */
  lemma SumNow(cv: Curves, h: int, us: seq<Update>, powers: bool)
    requires us != []
    ensures var n := |us| - 1;
            SumAt(cv, h, us, powers, us[n].at) == SumAt(cv, h, us[..n], powers, us[n].at) + Part(us[n], powers)
  {
    var u := us[|us| - 1];
    TimesOne(Part(u, powers), DecayFactor(cv, u.at - u.at, h));
  }

  // ---------------------------------------------------------------- samples

  datatype Sample = Sample(value: real, weight: real, age: int)

  const NO_SAMPLE := Sample(0.0, 0.0, 0)

  function Age(b: Bucket, now: int): (a: nat) { if now < b.lastUpdate then 0 else now - b.lastUpdate }

  /** sample on the bucket a key has, if any. */
  function SampleOf(cv: Curves, b: Option<Bucket>, h: int, staleAfter: int, now: int): (s: Sample) {
    match b
    case None => NO_SAMPLE
    case Some(b) =>
      var age := Age(b, now);
      if staleAfter > 0 && age > staleAfter then NO_SAMPLE else
        var decay := DecayFactor(cv, age, h);
        Ratio(Times(b.sumPower, decay), Times(b.weight, decay), age)
  }

  function Ratio(power: real, weight: real, age: int): (s: Sample) {
    if weight <= 0.0 || power <= 0.0 then NO_SAMPLE else Sample(power / weight, weight, age)
  }

  lemma CancelDecay(p: real, w: real, d: real)
    requires w > 0.0 && d > 0.0
    ensures Times(w, d) > 0.0 && Times(p, d) / Times(w, d) == p / w
  {
    TimesPositive(w, d);
    var q := p / w;
    assert p == q * w;
    assert p * d == q * (w * d);
  }

  /** The sampled mean does not move as a bucket ages: at every instant before it goes
      stale it is the weighted mean of the powers, and afterwards there is none. */
  lemma SampleMean(cv: Curves, b: Bucket, h: int, staleAfter: int, now: int)
    requires RatesOk(cv) && b.weight > 0.0 && b.sumPower > 0.0
    ensures var s := SampleOf(cv, Some(b), h, staleAfter, now);
            if staleAfter > 0 && Age(b, now) > staleAfter then s == NO_SAMPLE
            else s.value == b.sumPower / b.weight
                 && s.weight == Times(b.weight, DecayFactor(cv, Age(b, now), h)) && s.weight > 0.0
  {
    var d := DecayFactor(cv, Age(b, now), h);
    DecayRange(cv, Age(b, now), h);
    CancelDecay(b.sumPower, b.weight, d);
    TimesPositive(b.sumPower, d);
  }

  // ---------------------------------------------------------------- bounds

  /** A power sum whose mean over the weight lies in [lo, hi]. */
  predicate MeanWithin(power: real, weight: real, lo: real, hi: real) {
    weight > 0.0 && Times(lo, weight) <= power <= Times(hi, weight)
  }

  predicate Within(b: Bucket, lo: real, hi: real) {
    MeanWithin(b.sumPower, b.weight, lo, hi)
  }

  lemma TimesMono(a: real, b: real, d: real)
    requires a <= b && d >= 0.0
    ensures Times(a, d) <= Times(b, d)
  {
    assert (b - a) * d >= 0.0;
  }

  lemma PartWithin(power: real, weight: real, lo: real, hi: real)
    requires weight > 0.0 && lo <= power <= hi
    ensures MeanWithin(Times(power, weight), weight, lo, hi)
  {
    TimesMono(lo, power, weight);
    TimesMono(power, hi, weight);
  }

  /** Decay scales sum and weight alike. */
  lemma AgedWithin(p: real, w: real, d: real, lo: real, hi: real)
    requires MeanWithin(p, w, lo, hi) && d > 0.0
    ensures MeanWithin(Times(p, d), Times(w, d), lo, hi)
  {
    hide Times;
    TimesPositive(w, d);
    TimesAssociates(lo, w, d);
    TimesAssociates(hi, w, d);
    TimesMono(Times(lo, w), p, d);
    TimesMono(p, Times(hi, w), d);
  }

  lemma Distribute(a: real, x: real, y: real)
    ensures Times(a, x + y) == Times(a, x) + Times(a, y)
  {
  }

  lemma AccumulatedWithin(p: real, w: real, dp: real, dw: real, now: int, lo: real, hi: real)
    requires MeanWithin(p, w, lo, hi) && MeanWithin(dp, dw, lo, hi)
    ensures Within(Accumulated(p, w, dp, dw, now), lo, hi)
  {
    hide Times;
    Distribute(lo, w, dw);
    Distribute(hi, w, dw);
  }

  /** Any update keeps the mean within the bounds of the powers seen, whatever the
      order of its timestamps. */
  lemma UpdateWithin(cv: Curves, b: Option<Bucket>, power: real, weight: real, now: int, h: int, lo: real, hi: real)
    requires RatesOk(cv) && weight > 0.0 && lo <= power <= hi
    requires b.Some? ==> Within(b.value, lo, hi)
    ensures Within(Updated(cv, b, power, weight, now, h), lo, hi)
  {
    hide Times, DecayFactor, MeanWithin;
    PartWithin(power, weight, lo, hi);
    if b.Some? {
      var d := DecayFactor(cv, now - b.value.lastUpdate, h);
      DecayRange(cv, now - b.value.lastUpdate, h);
      AgedWithin(b.value.sumPower, b.value.weight, d, lo, hi);
      AccumulatedWithin(Times(b.value.sumPower, d), Times(b.value.weight, d), Times(power, weight), weight, now,
                        lo, hi);
    }
  }

  lemma QuotientBounds(lo: real, hi: real, p: real, w: real)
    requires MeanWithin(p, w, lo, hi)
    ensures lo <= p / w <= hi
  {
    var q := p / w;
    assert p == q * w;
    assert q < lo ==> (lo - q) * w > 0.0;
    assert q > hi ==> (q - hi) * w > 0.0;
  }

  /** A sample is absent or carries a value within bounds. */
  predicate SampleWithin(s: Sample, lo: real, hi: real) {
    s.weight >= 0.0 && (s.weight > 0.0 ==> lo <= s.value <= hi)
  }

  lemma RatioWithin(p: real, w: real, age: int, lo: real, hi: real)
    requires MeanWithin(p, w, lo, hi)
    ensures SampleWithin(Ratio(p, w, age), lo, hi)
  {
    QuotientBounds(lo, hi, p, w);
  }

  lemma SampleIsWithin(cv: Curves, b: Option<Bucket>, h: int, staleAfter: int, now: int, lo: real, hi: real)
    requires RatesOk(cv) && (b.Some? ==> Within(b.value, lo, hi))
    ensures SampleWithin(SampleOf(cv, b, h, staleAfter, now), lo, hi)
  {
    hide Times, DecayFactor, Ratio;
    if b.Some? {
      var d := DecayFactor(cv, Age(b.value, now), h);
      DecayRange(cv, Age(b.value, now), h);
      AgedWithin(b.value.sumPower, b.value.weight, d, lo, hi);
      RatioWithin(Times(b.value.sumPower, d), Times(b.value.weight, d), Age(b.value, now), lo, hi);
    }
  }
}
