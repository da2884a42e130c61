/** How long a cached grid is found, what an update leaves to be read, and which of two grids a
    stored record leaves in the cache. */
module MetaGrids {
  import opened Common
  import opened Text
  import opened MetaCache

  /** A grid stamped at t can still be read at now: there is no limit, no stamp, or no more than the
      limit has passed. The greatest limit never runs out. */
  predicate Live(cfg: Config, t: int, now: int) {
    cfg.gridTTL <= 0 || t == ZERO_TIME || now - t <= cfg.gridTTL || cfg.gridTTL == MAX_INT64
  }

  lemma LiveIff(cfg: Config, r: Row, now: int)
    ensures Expired(cfg, r, now) <==> !Live(cfg, r.updatedAt, now)
  {
  }

  /** What LookupGrid answers: the grid and whether it was derived, or nothing. */
  function Answer(cfg: Config, s: Recency, call: bytes, now: int): (r: Option<(bytes, bool)>) {
    if call == [] || !Has(s, call) then None else
      var row := Find(s, call).value;
      if row.gridValid && Live(cfg, row.updatedAt, now) then Some((row.grid, row.gridDerived)) else None
  }

  /** The call has a valid grid in the cache, expired or not. */
  predicate Cached(s: Recency, call: bytes) {
    Has(s, call) && Find(s, call).value.gridValid
  }

  /** A first grid is found from its update until the limit has passed, and not after. */
  lemma FirstGridLives(cfg: Config, s: Recency, call: bytes, grid: bytes, derived: bool, t: int, now: int)
    requires RecencyOk(cfg, s) && call != [] && grid != [] && !Cached(s, call)
    ensures var u := Step(cfg, s, UpdateGrid(call, grid, derived, t));
            Answer(cfg, u, call, now) == if Live(cfg, t, now) then Some((grid, derived)) else None
  {
    StepFind(cfg, s, UpdateGrid(call, grid, derived, t), call);
    hide Find, Step, Expired;
  }

  /** An update is read back at once, unless it is derived and the cache holds an actual grid; then
      the lookup answers as it would have before. */
  lemma UpdateReadBack(cfg: Config, s: Recency, call: bytes, grid: bytes, derived: bool, t: int)
    requires RecencyOk(cfg, s) && call != [] && grid != []
    ensures var u := Step(cfg, s, UpdateGrid(call, grid, derived, t));
            Answer(cfg, u, call, t) == if derived && Actual(s, call) then Answer(cfg, s, call, t)
                                       else Some((grid, derived))
  {
    StepFind(cfg, s, UpdateGrid(call, grid, derived, t), call);
    if Has(s, call) { LiveIff(cfg, Find(s, call).value, t); }
    hide Find, Step, Expired;
  }

  /** A lookup that finds the grid past its limit drops it: no later lookup finds it, whatever the
      clock. One that finds it live leaves it. */
  lemma ExpiryIsFinal(cfg: Config, s: Recency, call: bytes, now: int, later: int)
    requires RecencyOk(cfg, s) && call != [] && Cached(s, call)
    ensures var row := Find(s, call).value;
            var u := Step(cfg, s, LookupGrid(call, now));
            Answer(cfg, u, call, later) == if Live(cfg, row.updatedAt, now) then Answer(cfg, s, call, later) else None
  {
    StepFind(cfg, s, LookupGrid(call, now), call);
    LiveIff(cfg, Find(s, call).value, now);
    hide Find, Step, Expired;
  }

  /** The grid a stored record leaves in a row: the record's when the row has none; otherwise an
      actual one before a derived one, and of two alike the strictly newer, the cached one on a
      tie. */
  predicate RecordWins(r: Row, s: Stored) {
    !r.gridValid || (r.gridDerived && !s.gridDerived) || (r.gridDerived == s.gridDerived && s.updatedAt > r.updatedAt)
  }

  lemma StoredGridKept(cfg: Config, r: Row, call: bytes, s: Stored)
    ensures var n := RowAfter(cfg, r, ApplyRecord(call, s));
            var text := if s.grid.Some? then ToUpper(TrimSpace(s.grid.value)) else [];
            && (if text != [] && RecordWins(r, s)
                then n.grid == text && n.gridValid && n.gridDerived == s.gridDerived && n.updatedAt == s.updatedAt
                else n.grid == r.grid && n.gridValid == r.gridValid && n.gridDerived == r.gridDerived
                     && n.updatedAt == r.updatedAt)
            && n.isKnown == s.isKnown && n.knownChecked
            && (if s.cty.Some? then n.cty == s.cty && n.ctyChecked else n.cty == r.cty && n.ctyChecked == r.ctyChecked)
  {
    hide TrimSpace, ToUpper;
  }

  /** What is known of a call and its country survive every grid operation. */
  lemma GridOpsKeepRest(cfg: Config, r: Row, op: Op)
    requires op.LookupGrid? || op.UpdateGrid? || op.PeekCty?
    ensures var n := RowAfter(cfg, r, op);
            n.isKnown == r.isKnown && n.knownChecked == r.knownChecked && n.cty == r.cty && n.ctyChecked == r.ctyChecked
  {
  }

  /** An update is written, and has to be persisted, unless it is derived under an actual grid or
      says what a live cached grid says. */
  lemma WrittenIff(cfg: Config, r: Row, grid: bytes, derived: bool, now: int)
    ensures Writes(cfg, r, grid, derived, now) <==>
            || !r.gridValid
            || (!(derived && !r.gridDerived)
                && (r.grid != grid || r.gridDerived != derived || !Live(cfg, r.updatedAt, now)))
  {
    LiveIff(cfg, r, now);
    hide Expired;
  }

  // ---------------------------------------------------------------- countries

  /** What LookupCTY's first lock section answers: the country, that there is none, or nothing. */
  function CtyAnswer(s: Recency, call: bytes): (r: Option<Option<Info>>) {
    if call == [] || !Has(s, call) || !Find(s, call).value.ctyChecked then None else Some(Find(s, call).value.cty)
  }

  /** What an operation establishes about the call's country. */
  function Verdict(op: Op, call: bytes): (r: Option<Option<Info>>) {
    if op.StoreCty? && op.call == call then Some(op.found)
    else if op.ApplyRecord? && op.call == call && op.stored.cty.Some? then Some(op.stored.cty)
    else None
  }

  /** The last verdict of a run on the call, or what the cache answered before it. */
  function LastVerdict(s: Recency, ops: seq<Op>, call: bytes): (r: Option<Option<Info>>) {
    if ops == [] then CtyAnswer(s, call)
    else if Verdict(ops[|ops| - 1], call).Some? then Verdict(ops[|ops| - 1], call)
    else LastVerdict(s, ops[..|ops| - 1], call)
  }

  /** One operation answers its own verdict from then on, and keeps the answer otherwise, unless
      the call's row goes. */
  lemma StepCty(cfg: Config, s: Recency, op: Op, call: bytes)
    requires RecencyOk(cfg, s) && call != []
    ensures var u := Step(cfg, s, op);
            && (Verdict(op, call).Some? ==> CtyAnswer(u, call) == Verdict(op, call))
            && (Verdict(op, call).None? ==>
                  CtyAnswer(u, call) == if Has(u, call) then CtyAnswer(s, call) else None)
  {
    if op.Clear? { return; }
    StepFind(cfg, s, op, call);
    hide Find, Step, Expired, Writes, TakesGrid, StoredGrid, RecencyOk, Evicts;
  }

  /** No run answers a stale country: what is answered is the run's last verdict. */
  lemma {:induction false} CtyNeverStale(cfg: Config, s: Recency, ops: seq<Op>, call: bytes)
    requires RecencyOk(cfg, s) && call != []
    ensures var answer := CtyAnswer(Run(cfg, s, ops), call);
            answer.None? || answer == LastVerdict(s, ops, call)
  {
    hide Step, CtyAnswer, RecencyOk, Verdict, Find;
    if ops != [] {
      var n := |ops| - 1;
      CtyNeverStale(cfg, s, ops[..n], call);
      RunOk(cfg, s, ops[..n]);
      StepCty(cfg, Run(cfg, s, ops[..n]), ops[n], call);
    }
  }

  /** A verdict, the database's "no country" too, is answered while the operations since name fewer
      than max other calls. */
  lemma {:induction false} CtyAnswered(cfg: Config, s: Recency, ops: seq<Op>, call: bytes, found: Option<Info>)
    requires RecencyOk(cfg, s) && cfg.max > 0 && call != []
    requires forall i :: 0 <= i < |ops| ==> !ops[i].Clear? && Verdict(ops[i], call).None?
    requires |Named(ops) - {call}| < cfg.max
    ensures CtyAnswer(Run(cfg, Step(cfg, s, StoreCty(call, found)), ops), call) == Some(found)
  {
    var first := Step(cfg, s, StoreCty(call, found));
    StepCty(cfg, s, StoreCty(call, found), call);
    StepOk(cfg, s, StoreCty(call, found));
    StepFront(cfg, s, StoreCty(call, found));
    assert Has(first, call);
    hide Step, RecencyOk, Find, CtyAnswer;
    if ops != [] {
      var n := |ops| - 1;
      Smaller(Named(ops[..n]) - {call}, Named(ops) - {call});
      CtyAnswered(cfg, s, ops[..n], call, found);
      RecentStays(cfg, first, ops, call);
      RunOk(cfg, first, ops[..n]);
      StepCty(cfg, Run(cfg, first, ops[..n]), ops[n], call);
    }
  }

  /** Marking a call known or unknown is kept, and changes no grid or country answer. */
  lemma KnownMarked(cfg: Config, s: Recency, call: bytes, known: bool, now: int)
    requires RecencyOk(cfg, s) && call != []
    ensures var u := Step(cfg, s, SetKnown(call, known));
            && Has(u, call) && Find(u, call).value.knownChecked && Find(u, call).value.isKnown == known
            && Answer(cfg, u, call, now) == Answer(cfg, s, call, now) && CtyAnswer(u, call) == CtyAnswer(s, call)
  {
    StepFind(cfg, s, SetKnown(call, known), call);
    hide Find, Step, RecencyOk, Evicts, Live;
  }
}
