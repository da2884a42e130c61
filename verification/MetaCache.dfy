/** The call metadata cache over one shard: a recency-ordered list of rows, newest first. */
module MetaCache {
  import opened Common
  import opened Text

  /** time.Time's zero value, in nanoseconds from the Unix epoch. */
  const ZERO_TIME := -62_135_596_800_000_000_000

  datatype Info = Info(country: bytes, adif: int, cqZone: int, ituZone: int, continent: bytes)

  /** callMetaEntry. */
  datatype Row = Row(
    call: bytes, grid: bytes, gridValid: bool, gridDerived: bool, updatedAt: int,
    isKnown: bool, knownChecked: bool, cty: Option<Info>, ctyChecked: bool)

  /** What ApplyRecord reads of a stored record. */
  datatype Stored = Stored(
    grid: Option<bytes>, gridDerived: bool, updatedAt: int, isKnown: bool, cty: Option<Info>)

  datatype Config = Config(max: nat, gridTTL: int64)

  type Recency = seq<Row>

  /** The cache's lock sections, calls already normalized. LookupCTY has two of them. */
  datatype Op =
    | LookupGrid(call: bytes, now: int)
    | UpdateGrid(call: bytes, grid: bytes, derived: bool, now: int)
    | ApplyRecord(call: bytes, stored: Stored)
    | SetKnown(call: bytes, known: bool)
    | PeekCty(call: bytes)
    | StoreCty(call: bytes, found: Option<Info>)
    | Clear

  // ---------------------------------------------------------------- lists

  function Find(s: Recency, call: bytes): (r: Option<Row>)
    ensures r.Some? ==> r.value.call == call
  {
    if s == [] then None else if s[0].call == call then Some(s[0]) else Find(s[1..], call)
  }

  function Without(s: Recency, call: bytes): (r: Recency) {
    if s == [] then [] else (if s[0].call == call then [] else [s[0]]) + Without(s[1..], call)
  }

  predicate Has(s: Recency, call: bytes) {
    Find(s, call).Some?
  }

  predicate Distinct(s: Recency) {
    forall i, j :: 0 <= i < j < |s| ==> s[i].call != s[j].call
  }

  predicate RecencyOk(cfg: Config, s: Recency) {
    Distinct(s) && (cfg.max > 0 ==> |s| <= cfg.max)
  }

  function NewRow(call: bytes): (r: Row) {
    Row(call, [], false, false, ZERO_TIME, false, false, None, false)
  }

  /** addEntry's bound: at most one row too many, and the least recent goes. */
  function Bounded(cfg: Config, s: Recency): (r: Recency) {
    if cfg.max > 0 && |s| > cfg.max then s[..|s| - 1] else s
  }

  // ---------------------------------------------------------------- one row

  predicate Expired(cfg: Config, r: Row, now: int) {
    cfg.gridTTL > 0 && r.updatedAt != ZERO_TIME && Sub(now, r.updatedAt) > cfg.gridTTL
  }

  function WithGrid(r: Row, grid: bytes, derived: bool, at: int): (n: Row) {
    r.(grid := grid, gridValid := true, gridDerived := derived, updatedAt := at)
  }

  function Invalidated(r: Row): (n: Row) {
    r.(grid := [], gridValid := false, gridDerived := false)
  }

  /** UpdateGrid writes: the grid is news, and not a derived one over an actual one. */
  predicate Writes(cfg: Config, r: Row, grid: bytes, derived: bool, now: int) {
    && !(r.gridValid && r.grid == grid && r.gridDerived == derived && !Expired(cfg, r, now))
    && !(derived && r.gridValid && !r.gridDerived)
  }

  function StoredGrid(s: Stored): (g: bytes) {
    if s.grid.Some? then ToUpper(TrimSpace(s.grid.value)) else []
  }

  predicate TakesGrid(r: Row, s: Stored) {
    && StoredGrid(s) != []
    && !(r.gridValid && !r.gridDerived && s.gridDerived)
    && (!r.gridValid || s.updatedAt > r.updatedAt || (r.gridDerived && !s.gridDerived))
  }

  function RowAfter(cfg: Config, r: Row, op: Op): (n: Row)
    ensures n.call == r.call
  {
    match op
    case LookupGrid(_, now) => if r.gridValid && Expired(cfg, r, now) then Invalidated(r) else r
    case UpdateGrid(_, grid, derived, now) =>
      if Writes(cfg, r, grid, derived, now) then WithGrid(r, grid, derived, now) else r
    case ApplyRecord(_, stored) =>
      var g := if TakesGrid(r, stored)
               then WithGrid(r, StoredGrid(stored), stored.gridDerived, stored.updatedAt) else r;
      var k := g.(isKnown := stored.isKnown, knownChecked := true);
      if stored.cty.Some? then k.(cty := stored.cty, ctyChecked := true) else k
    case SetKnown(_, known) => r.(isKnown := known, knownChecked := true)
    case PeekCty(_) => r
    case StoreCty(_, found) => r.(cty := found, ctyChecked := true)
    case Clear => r
  }

  // ---------------------------------------------------------------- one operation

  /** Operations that return before they touch the shard. */
  predicate Ignored(op: Op) {
    op.Clear? || op.call == [] || (op.UpdateGrid? && op.grid == [])
  }

  predicate Creates(op: Op) {
    op.UpdateGrid? || op.ApplyRecord? || op.SetKnown? || op.StoreCty?
  }

  function Step(cfg: Config, s: Recency, op: Op): (r: Recency) {
    if op.Clear? then []
    else if Ignored(op) then s
    else match Find(s, op.call)
      case Some(row) => [RowAfter(cfg, row, op)] + Without(s, op.call)
      case None => if Creates(op) then Bounded(cfg, [RowAfter(cfg, NewRow(op.call), op)] + s) else s
  }

  function Run(cfg: Config, s: Recency, ops: seq<Op>): (r: Recency) {
    if ops == [] then s else Step(cfg, Run(cfg, s, ops[..|ops| - 1]), ops[|ops| - 1])
  }

  // ---------------------------------------------------------------- list facts

  lemma {:induction false} HasIff(s: Recency, call: bytes)
    ensures Has(s, call) <==> exists i :: 0 <= i < |s| && s[i].call == call
  {
    if s != [] {
      HasIff(s[1..], call);
      assert forall i :: 0 < i < |s| ==> s[i] == s[1..][i - 1];
      if i :| 0 <= i < |s[1..]| && s[1..][i].call == call { assert s[i + 1].call == call; }
    }
  }

  lemma {:induction false} WithoutFind(s: Recency, call: bytes, other: bytes)
    ensures Find(Without(s, call), other) == if other == call then None else Find(s, other)
  {
    if s != [] {
      WithoutFind(s[1..], call, other);
      var rest := Without(s[1..], call);
      if s[0].call != call { assert ([s[0]] + rest)[1..] == rest; } else { assert [] + rest == rest; }
    }
  }

  lemma {:induction false} WithoutAbsent(s: Recency, call: bytes)
    requires !Has(s, call)
    ensures Without(s, call) == s
  {
    if s != [] { WithoutAbsent(s[1..], call); }
  }

  lemma DistinctTail(s: Recency)
    requires Distinct(s) && s != []
    ensures Distinct(s[1..]) && !Has(s[1..], s[0].call)
  {
    HasIff(s[1..], s[0].call);
  }

  lemma DistinctCons(row: Row, s: Recency)
    requires Distinct(s) && !Has(s, row.call)
    ensures Distinct([row] + s)
  {
    HasIff(s, row.call);
  }

  lemma {:induction false} WithoutOk(s: Recency, call: bytes)
    requires Distinct(s)
    ensures Distinct(Without(s, call)) && !Has(Without(s, call), call)
    ensures |Without(s, call)| == |s| - if Has(s, call) then 1 else 0
  {
    WithoutFind(s, call, call);
    if s != [] {
      DistinctTail(s);
      WithoutOk(s[1..], call);
      if s[0].call == call {
        WithoutAbsent(s[1..], call);
      } else {
        WithoutFind(s[1..], call, s[0].call);
        DistinctCons(s[0], Without(s[1..], call));
      }
    }
  }

  // ---------------------------------------------------------------- every operation

  /** The shard stays a list of distinct calls within its bound. */
  lemma StepOk(cfg: Config, s: Recency, op: Op)
    requires RecencyOk(cfg, s)
    ensures RecencyOk(cfg, Step(cfg, s, op))
  {
    hide Find, Without, RowAfter;
    if !Ignored(op) {
      match Find(s, op.call)
      case Some(row) =>
        WithoutOk(s, op.call);
        DistinctCons(RowAfter(cfg, row, op), Without(s, op.call));
      case None =>
        DistinctCons(RowAfter(cfg, NewRow(op.call), op), s);
    }
  }

  lemma {:induction false} RunOk(cfg: Config, s: Recency, ops: seq<Op>)
    requires RecencyOk(cfg, s)
    ensures RecencyOk(cfg, Run(cfg, s, ops))
  {
    hide Step, RecencyOk;
    if ops != [] {
      RunOk(cfg, s, ops[..|ops| - 1]);
      StepOk(cfg, Run(cfg, s, ops[..|ops| - 1]), ops[|ops| - 1]);
    }
  }

  /** The operation adds a call to a full shard, so the last row goes. */
  predicate Evicts(cfg: Config, s: Recency, op: Op) {
    !Ignored(op) && Creates(op) && !Has(s, op.call) && cfg.max > 0 && |s| >= cfg.max
  }

  lemma {:induction false} FindButLast(s: Recency, call: bytes)
    requires Distinct(s) && s != []
    ensures Find(s[..|s| - 1], call) == if s[|s| - 1].call == call then None else Find(s, call)
  {
    if |s| > 1 {
      DistinctTail(s);
      FindButLast(s[1..], call);
      assert s[..|s| - 1][1..] == s[1..][..|s| - 2];
    }
  }

  /** Adding a row in front of a list, then bounding it. */
  lemma BoundedFind(cfg: Config, row: Row, s: Recency, call: bytes)
    requires RecencyOk(cfg, s) && !Has(s, row.call)
    ensures Find(Bounded(cfg, [row] + s), call)
            == if call == row.call then Some(row)
               else if cfg.max > 0 && |s| >= cfg.max && s[|s| - 1].call == call then None
               else Find(s, call)
  {
    var longer := [row] + s;
    assert longer[1..] == s;
    DistinctCons(row, s);
    FindButLast(longer, call);
    hide Distinct;
  }

  /** Every operation but Clear keeps every row but its own, except that adding to a full
      shard evicts the least recent one, never the one just added. */
  lemma StepFind(cfg: Config, s: Recency, op: Op, call: bytes)
    requires RecencyOk(cfg, s) && !op.Clear?
    ensures var after := Find(Step(cfg, s, op), call);
            if !Ignored(op) && call == op.call then
              after == match Find(s, call)
                       case Some(row) => Some(RowAfter(cfg, row, op))
                       case None => if Creates(op) then Some(RowAfter(cfg, NewRow(call), op)) else None
            else if Evicts(cfg, s, op) && s[|s| - 1].call == call then after == None
            else after == Find(s, call)
  {
    hide RowAfter, Without, Distinct, Bounded;
    if !Ignored(op) {
      match Find(s, op.call)
      case Some(row) =>
        var rest := Without(s, op.call);
        WithoutFind(s, op.call, call);
        assert ([RowAfter(cfg, row, op)] + rest)[1..] == rest;
      case None =>
        BoundedFind(cfg, RowAfter(cfg, NewRow(op.call), op), s, call);
    }
  }

  // ---------------------------------------------------------------- least recently used

  /** The calls in front of a call. */
  function Ahead(s: Recency, call: bytes): (r: set<bytes>) {
    if s == [] || s[0].call == call then {} else {s[0].call} + Ahead(s[1..], call)
  }

  lemma {:induction false} AheadWithout(s: Recency, call: bytes, other: bytes)
    requires call != other
    ensures Ahead(Without(s, other), call) <= Ahead(s, call)
  {
    if s != [] {
      AheadWithout(s[1..], call, other);
      var rest := Without(s[1..], other);
      if s[0].call != other { assert ([s[0]] + rest)[1..] == rest; } else { assert [] + rest == rest; }
      if s[0].call == call { assert Without(s, other) == [s[0]] + rest; }
    }
  }

  lemma {:induction false} AheadButLast(s: Recency, call: bytes)
    requires s != []
    ensures Ahead(s[..|s| - 1], call) <= Ahead(s, call)
  {
    if |s| > 1 {
      AheadButLast(s[1..], call);
      assert s[..|s| - 1][1..] == s[1..][..|s| - 2];
    }
  }

  lemma {:induction false} AheadHas(s: Recency, call: bytes, other: bytes)
    requires other in Ahead(s, call)
    ensures Has(s, other)
  {
    if s[0].call != other { AheadHas(s[1..], call, other); }
  }

  lemma {:induction false} AheadOfLast(s: Recency)
    requires Distinct(s) && s != []
    ensures |Ahead(s, s[|s| - 1].call)| == |s| - 1
  {
    if |s| > 1 {
      var last := s[|s| - 1].call;
      DistinctTail(s);
      AheadOfLast(s[1..]);
      if s[0].call in Ahead(s[1..], last) { AheadHas(s[1..], last, s[0].call); }
      assert s[0].call != last;
    }
  }

  /** The calls the operations name. */
  function Named(ops: seq<Op>): (r: set<bytes>) {
    if ops == [] then {} else
      var op := ops[|ops| - 1];
      Named(ops[..|ops| - 1]) + if op.Clear? then {} else {op.call}
  }

  /** An operation on another call puts at most that call ahead. */
  lemma StepAhead(cfg: Config, s: Recency, op: Op, call: bytes)
    requires RecencyOk(cfg, s) && !op.Clear? && op.call != call && Has(Step(cfg, s, op), call)
    ensures Ahead(Step(cfg, s, op), call) <= Ahead(s, call) + {op.call}
  {
    hide RowAfter, Without, Find;
    if !Ignored(op) {
      match Find(s, op.call)
      case Some(row) =>
        var rest := Without(s, op.call);
        AheadWithout(s, call, op.call);
        assert ([RowAfter(cfg, row, op)] + rest)[1..] == rest;
      case None =>
        var longer := [RowAfter(cfg, NewRow(op.call), op)] + s;
        assert longer[1..] == s;
        AheadButLast(longer, call);
    }
  }

  /** The call that was just touched is in front. */
  lemma StepFront(cfg: Config, s: Recency, op: Op)
    requires RecencyOk(cfg, s) && !Ignored(op) && Has(Step(cfg, s, op), op.call)
    ensures Ahead(Step(cfg, s, op), op.call) == {}
  {
    StepFind(cfg, s, op, op.call);
    hide Find, Without, RowAfter;
  }

  /** A call survives an operation that leaves fewer than max calls named since its own. */
  lemma StepSurvives(cfg: Config, s: Recency, op: Op, call: bytes, named: set<bytes>)
    requires RecencyOk(cfg, s) && cfg.max > 0 && !op.Clear? && op.call != call
    requires Has(s, call) && Ahead(s, call) <= named
    requires |named + {op.call}| < cfg.max
    ensures Has(Step(cfg, s, op), call)
  {
    StepFind(cfg, s, op, call);
    hide Find, Step, RowAfter;
    if Evicts(cfg, s, op) && s[|s| - 1].call == call {
      AheadOfLast(s);
      if op.call in Ahead(s, call) { AheadHas(s, call, op.call); }
      Smaller(Ahead(s, call) + {op.call}, named + {op.call});
    }
  }

  lemma Smaller<T>(a: set<T>, b: set<T>)
    requires a <= b
    ensures |a| <= |b|
  {
    assert b == a + (b - a);
  }

  /** The LRU promise: a cached call that is in front stays cached while the operations since
      name fewer than max other calls, however often they name them. */
  lemma {:induction false} RecentStays(cfg: Config, s: Recency, ops: seq<Op>, call: bytes)
    requires RecencyOk(cfg, s) && cfg.max > 0 && Has(s, call) && Ahead(s, call) == {}
    requires forall i :: 0 <= i < |ops| ==> !ops[i].Clear?
    requires |Named(ops) - {call}| < cfg.max
    ensures Has(Run(cfg, s, ops), call) && Ahead(Run(cfg, s, ops), call) <= Named(ops) - {call}
  {
    hide Find, Step, RecencyOk, Ahead;
    if ops != [] {
      var n := |ops| - 1;
      var less, op := ops[..n], ops[n];
      Smaller(Named(less) - {call}, Named(ops) - {call});
      RecentStays(cfg, s, less, call);
      RunOk(cfg, s, less);
      var before := Run(cfg, s, less);
      if op.call == call {
        StepFind(cfg, before, op, call);
        if Ignored(op) { IgnoredStep(cfg, before, op); } else { StepFront(cfg, before, op); }
      } else {
        assert Named(less) - {call} + {op.call} == Named(ops) - {call};
        StepSurvives(cfg, before, op, call, Named(less) - {call});
        StepAhead(cfg, before, op, call);
      }
    }
  }

  lemma IgnoredStep(cfg: Config, s: Recency, op: Op)
    requires Ignored(op) && !op.Clear?
    ensures Step(cfg, s, op) == s
  {
  }

  // ---------------------------------------------------------------- actual grids

  /** The call is cached with a valid grid that was not derived. */
  predicate Actual(s: Recency, call: bytes) {
    Has(s, call) && var r := Find(s, call).value; r.gridValid && !r.gridDerived
  }

  /** The lookup that finds the call's grid past its TTL. */
  predicate Invalidates(cfg: Config, s: Recency, op: Op, call: bytes) {
    op.LookupGrid? && op.call == call && call != [] && Has(s, call)
    && Find(s, call).value.gridValid && Expired(cfg, Find(s, call).value, op.now)
  }

  /** An actual grid stays one exactly until the call is gone or a lookup finds it expired. */
  lemma StepActual(cfg: Config, s: Recency, op: Op, call: bytes)
    requires RecencyOk(cfg, s) && Actual(s, call)
    ensures Actual(Step(cfg, s, op), call) <==> Has(Step(cfg, s, op), call) && !Invalidates(cfg, s, op, call)
  {
    hide Find, Expired;
    if op.Clear? { assert !Has([], call) by { HasIff([], call); } } else { StepFind(cfg, s, op, call); }
    hide Step;
  }

  /** Operation i of the run neither loses the call nor finds its grid expired. */
  predicate Undisturbed(cfg: Config, s: Recency, ops: seq<Op>, i: nat, call: bytes)
    requires i < |ops|
  {
    Has(Run(cfg, s, ops[..i + 1]), call) && !Invalidates(cfg, Run(cfg, s, ops[..i]), ops[i], call)
  }

  /** Over any run: a grid that was actual and is not any more was evicted, cleared or
      invalidated in between; in particular no derived grid ever replaces a live actual one. */
  lemma {:induction false} ActualStays(cfg: Config, s: Recency, ops: seq<Op>, call: bytes)
    requires RecencyOk(cfg, s) && Actual(s, call)
    requires forall i :: 0 <= i < |ops| ==> Undisturbed(cfg, s, ops, i, call)
    ensures Actual(Run(cfg, s, ops), call)
  {
    hide Step, Has, Actual, Invalidates, RecencyOk;
    if ops != [] {
      var n := |ops| - 1;
      var less := ops[..n];
      forall i | 0 <= i < n ensures Undisturbed(cfg, s, less, i, call) {
        assert Undisturbed(cfg, s, ops, i, call);
        assert less[..i + 1] == ops[..i + 1] && less[..i] == ops[..i];
      }
      ActualStays(cfg, s, less, call);
      RunOk(cfg, s, less);
      assert ops[..n + 1] == ops && Undisturbed(cfg, s, ops, n, call);
      StepActual(cfg, Run(cfg, s, less), ops[n], call);
    }
  }

  /** newCallMetaCache: the shards together hold no more than the capacity asked for, and
      every shard holds something. */
  function PerShard(capacity: int): (n: nat)
    ensures n >= 1 && 16 * n <= Max(if capacity <= 0 then 100000 else capacity, 16)
  {
    var c := Max(if capacity <= 0 then 100000 else capacity, 16);
    if c / 16 <= 0 then 1 else c / 16
  }
}
