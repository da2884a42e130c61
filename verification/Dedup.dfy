/** Windowed duplicate suppression over one map, and what cleanup passes may change. */
module Dedup {
  import opened Common
  import opened Shards

  /** The secondary deduper waves some spots through unseen, the primary none. */
  datatype Config = Config(window: int64, preferStronger: bool, secondary: bool)

  /** What suppression reads of a spot; hash is its 32-bit key, adif its spotter's country. */
  datatype Spot = Spot(hash: uint32, time: int, report: int, hasReport: bool, adif: int)

  datatype Entry = Entry(when: int, snr: int, hasReport: bool)

  type Cache = Table<Entry>

  /** How a spot compares with the cached one: no live entry, an improvement, or a repeat. */
  datatype Verdict = Fresh | Better | Duplicate

  // ---------------------------------------------------------------- one spot

  /** The age both dedupers compare; negating the least duration wraps. */
  function Age(t: int, when: int): (age: int64) {
    var d: int := Sub(t, when);
    if d < 0 then Wrap64(-d) else d
  }

  predicate InWindow(cfg: Config, t: int, when: int) {
    Age(t, when) < cfg.window
  }

  /** The window test means "less than a window apart", except that a time 2^63 ns or more
      before the cached one passes for a duplicate whatever the window. */
  lemma InWindowIff(cfg: Config, t: int, when: int)
    ensures InWindow(cfg, t, when) <==>
            (t - when < cfg.window && when - t < cfg.window) || (t - when <= MIN_INT64 && cfg.window > MIN_INT64)
  {
  }

  /** A spot 2^63 ns before the cached one passes the test of a window of one nanosecond. */
  lemma FarPastInWindow()
    ensures InWindow(Config(1, false, true), 0, TWO63)
  {
    InWindowIff(Config(1, false, true), 0, TWO63);
  }

  function EntryOf(s: Spot): (e: Entry) {
    Entry(s.time, s.report, s.hasReport)
  }

  predicate Improves(cfg: Config, s: Spot, last: Entry) {
    (s.hasReport && !last.hasReport) || (cfg.preferStronger && s.report > last.snr)
  }

  function Judge(cfg: Config, cache: Cache, s: Spot): (v: Verdict) {
    if s.hash !in cache || !InWindow(cfg, s.time, cache[s.hash].when) then Fresh
    else if Improves(cfg, s, cache[s.hash]) then Better
    else Duplicate
  }

  /** A window of zero does not switch the primary deduper off: such a spot is a duplicate. */
  lemma ZeroWindowSuppresses()
    ensures Judge(Config(0, false, false), map[7 := Entry(TWO63, 0, false)], Spot(7, 0, 0, false, 1)).Duplicate?
  {
    InWindowIff(Config(0, false, false), 0, TWO63);
  }

  function Judged(cfg: Config, cache: Cache, s: Spot): (r: Cache) {
    if Judge(cfg, cache, s).Duplicate? then cache else Put(cache, s.hash, EntryOf(s))
  }

  // ---------------------------------------------------------------- runs

  /** A run of either deduper: spots offered, the secondary's cleanup passes at some instant,
      and the primary's deletions of whatever keys were collected before. */
  datatype Event = Offer(spot: Spot) | Cleanup(now: int) | Drop(keys: set<uint64>)

  /** Spots waved through without looking. */
  predicate Skips(cfg: Config, s: Spot) {
    cfg.secondary && (cfg.window <= 0 || s.adif <= 0)
  }

  function Cleaned(cfg: Config, cache: Cache, now: int): (r: Cache) {
    if cfg.window <= 0 then cache
    else map k | k in cache && Sub(now, cache[k].when) <= cfg.window :: cache[k]
  }

  predicate Forwards(cfg: Config, cache: Cache, s: Spot) {
    Skips(cfg, s) || !Judge(cfg, cache, s).Duplicate?
  }

  function Step(cfg: Config, cache: Cache, e: Event): (r: Cache) {
    match e
    case Offer(s) => if Skips(cfg, s) then cache else Judged(cfg, cache, s)
    case Cleanup(now) => Cleaned(cfg, cache, now)
    case Drop(keys) => cache - keys
  }

  function Run(cfg: Config, cache: Cache, events: seq<Event>): (r: Cache) {
    if events == [] then cache
    else Step(cfg, Run(cfg, cache, events[..|events| - 1]), events[|events| - 1])
  }

  function Answers(cfg: Config, cache: Cache, events: seq<Event>): (r: seq<bool>) {
    if events == [] then [] else
      var n := |events| - 1;
      Answers(cfg, cache, events[..n])
      + match events[n]
        case Offer(s) => [Forwards(cfg, Run(cfg, cache, events[..n]), s)]
        case Cleanup(_) => []
        case Drop(_) => []
  }

  function WithoutCleanups(events: seq<Event>): (r: seq<Event>) {
    if events == [] then [] else
      var n := |events| - 1;
      WithoutCleanups(events[..n]) + if events[n].Cleanup? then [] else [events[n]]
  }

  // ---------------------------------------------------------------- cleanup is invisible

  /** Every spot comes no earlier than a nanosecond before each cleanup instant so far. */
  ghost predicate Timely(events: seq<Event>) {
    forall i, j :: 0 <= i < j < |events| && events[i].Cleanup? && events[j].Offer? ==>
      events[j].spot.time >= events[i].now - 1
  }

  /** a is what cleanups left of b: nothing new, and every missing entry more than a window
      older than one of the cleanup instants. */
  ghost predicate Thinned(cfg: Config, a: Cache, b: Cache, events: seq<Event>) {
    forall k: uint64 ::
      if k in a then k in b && b[k] == a[k]
      else k in b ==> exists i :: 0 <= i < |events| && events[i].Cleanup? && events[i].now - b[k].when > cfg.window
  }

  /** A thinned cache answers every timely spot as the full one does. */
  lemma ThinnedAgrees(cfg: Config, a: Cache, b: Cache, events: seq<Event>, s: Spot)
    requires Thinned(cfg, a, b, events) && cfg.window > 0
    requires forall i :: 0 <= i < |events| && events[i].Cleanup? ==> s.time >= events[i].now - 1
    ensures Judge(cfg, a, s) == Judge(cfg, b, s)
  {
    hide InWindow, Improves;
    if s.hash in b && s.hash !in a {
      var i :| 0 <= i < |events| && events[i].Cleanup? && events[i].now - b[s.hash].when > cfg.window;
      InWindowIff(cfg, s.time, b[s.hash].when);
    }
  }

  lemma ThinnedStep(cfg: Config, a: Cache, b: Cache, events: seq<Event>, e: Event)
    requires Thinned(cfg, a, b, events) && Timely(events + [e]) && cfg.secondary
    ensures Thinned(cfg, Step(cfg, a, e), if e.Cleanup? then b else Step(cfg, b, e), events + [e])
  {
    hide InWindow, Improves, Judge;
    var longer := events + [e];
    assert forall i :: 0 <= i < |events| ==> longer[i] == events[i];
    if e.Offer? {
      assert longer[|events|] == e;
      if !Skips(cfg, e.spot) { ThinnedAgrees(cfg, a, b, events, e.spot); }
    } else if e.Cleanup? {
      assert longer[|events|].Cleanup? && longer[|events|].now == e.now;
    }
  }

  /** Cleanup passes anywhere in a timely run change no answer. */
  lemma {:induction false} CleanupInvisible(cfg: Config, cache: Cache, events: seq<Event>)
    requires Timely(events) && cfg.secondary
    ensures Answers(cfg, cache, events) == Answers(cfg, cache, WithoutCleanups(events))
    ensures Thinned(cfg, Run(cfg, cache, events), Run(cfg, cache, WithoutCleanups(events)), events)
  {
    hide Step, Forwards, Thinned, Timely;
    if events == [] {
      ThinnedSame(cfg, cache, events);
    } else {
      var n := |events| - 1;
      var less, e := events[..n], events[n];
      assert events == less + [e];
      TimelyPrefix(less, e);
      CleanupInvisible(cfg, cache, less);
      var a, b := Run(cfg, cache, less), Run(cfg, cache, WithoutCleanups(less));
      ThinnedStep(cfg, a, b, less, e);
      if !e.Cleanup? {
        var kept := WithoutCleanups(less);
        assert WithoutCleanups(events) == kept + [e];
        assert (kept + [e])[..|kept|] == kept;
        if e.Offer? { ForwardsAgree(cfg, a, b, less, e); }
      } else {
        assert WithoutCleanups(events) == WithoutCleanups(less);
      }
    }
  }

  lemma ThinnedSame(cfg: Config, cache: Cache, events: seq<Event>)
    ensures Thinned(cfg, cache, cache, events)
  {
  }

  lemma TimelyPrefix(less: seq<Event>, e: Event)
    requires Timely(less + [e])
    ensures Timely(less)
  {
    var events := less + [e];
    assert forall i :: 0 <= i < |less| ==> events[i] == less[i];
  }

  lemma ForwardsAgree(cfg: Config, a: Cache, b: Cache, less: seq<Event>, e: Event)
    requires Thinned(cfg, a, b, less) && Timely(less + [e]) && e.Offer? && cfg.secondary
    ensures Forwards(cfg, a, e.spot) == Forwards(cfg, b, e.spot)
  {
    hide Thinned, Judge;
    var events := less + [e];
    assert events[|less|] == e && forall i :: 0 <= i < |less| ==> events[i] == less[i];
    if !Skips(cfg, e.spot) { ThinnedAgrees(cfg, a, b, less, e.spot); }
  }

  /** Cleanup removes nothing: it is off, or no age exceeds the window. */
  predicate Idle(cfg: Config) {
    cfg.window <= 0 || cfg.window == MAX_INT64
  }

  lemma IdleCleans(cfg: Config, cache: Cache, now: int)
    requires Idle(cfg)
    ensures Cleaned(cfg, cache, now) == cache
  {
  }

  /** One cleanup is invisible to spots of time t whatever the cache exactly when t is no
      earlier than a nanosecond before the cleanup, or cleanup is idle. */
  lemma CleanupInvisibleIff(cfg: Config, now: int, t: int)
    ensures (forall cache: Cache, s: Spot :: s.time == t ==>
              Forwards(cfg, Cleaned(cfg, cache, now), s) == Forwards(cfg, cache, s))
            <==> t >= now - 1 || Idle(cfg)
  {
    if Idle(cfg) {
      forall cache: Cache ensures Cleaned(cfg, cache, now) == cache { IdleCleans(cfg, cache, now); }
    } else if t >= now - 1 {
      forall cache: Cache, s: Spot | s.time == t
        ensures Forwards(cfg, Cleaned(cfg, cache, now), s) == Forwards(cfg, cache, s)
      {
        CleanedAgrees(cfg, cache, now, s);
      }
    } else {
      EarlySpotEscapes(cfg, now, t);
    }
  }

  lemma CleanedAgrees(cfg: Config, cache: Cache, now: int, s: Spot)
    requires cfg.window > 0 && s.time >= now - 1
    ensures Forwards(cfg, Cleaned(cfg, cache, now), s) == Forwards(cfg, cache, s)
  {
    hide InWindow, Improves;
    if s.hash in cache { InWindowIff(cfg, s.time, cache[s.hash].when); }
  }

  /** A spot two nanoseconds before a cleanup, or earlier, can be forwarded because of it. */
  lemma EarlySpotEscapes(cfg: Config, now: int, t: int)
    requires 0 < cfg.window < MAX_INT64 && t < now - 1
    ensures exists cache: Cache, s: Spot :: s.time == t
              && Forwards(cfg, Cleaned(cfg, cache, now), s) && !Forwards(cfg, cache, s)
  {
    var when := Min(t, now - cfg.window - 1);
    var s := Spot(0, t, 0, false, 1);
    var cache: Cache := map[0 := Entry(when, 0, false)];
    InWindowIff(cfg, t, when);
    assert !Forwards(cfg, cache, s);
    assert Cleaned(cfg, cache, now) == map[];
    assert Forwards(cfg, Cleaned(cfg, cache, now), s);
  }

  // ---------------------------------------------------------------- exactly when over runs

  /** Same kinds of events, offers and cleanups at the same times. */
  ghost predicate SameSchedule(a: seq<Event>, b: seq<Event>) {
    |a| == |b| && forall i :: 0 <= i < |a| ==>
      match a[i]
      case Offer(s) => b[i].Offer? && b[i].spot.time == s.time
      case Cleanup(_) => b[i] == a[i]
      case Drop(_) => b[i].Drop?
  }

  /** Whatever the cache and the spots, cleanups at these times change no answer. */
  ghost predicate Invisible(cfg: Config, events: seq<Event>) {
    forall cache: Cache, evs :: SameSchedule(events, evs) ==>
      Answers(cfg, cache, evs) == Answers(cfg, cache, WithoutCleanups(evs))
  }

  lemma TimelySchedule(a: seq<Event>, b: seq<Event>)
    requires SameSchedule(a, b) && Timely(a)
    ensures Timely(b)
  {
    assert forall i :: 0 <= i < |a| ==> (a[i].Cleanup? <==> b[i].Cleanup?) && (a[i].Offer? <==> b[i].Offer?);
  }

  /** The answer to the offer at j stands at the number of offers before it. */
  function Offers(events: seq<Event>): (n: nat) {
    if events == [] then 0 else Offers(events[..|events| - 1]) + if events[|events| - 1].Offer? then 1 else 0
  }

  lemma AnswersStep(cfg: Config, cache: Cache, events: seq<Event>)
    requires events != []
    ensures var n := |events| - 1;
            var before := Answers(cfg, cache, events[..n]);
            && Offers(events) == Offers(events[..n]) + (if events[n].Offer? then 1 else 0)
            && Answers(cfg, cache, events)
               == if events[n].Offer? then before + [Forwards(cfg, Run(cfg, cache, events[..n]), events[n].spot)]
                  else before
  {
    hide Forwards, Run;
  }

  lemma {:induction false} AnswerAt(cfg: Config, cache: Cache, events: seq<Event>, j: nat)
    requires j < |events| && events[j].Offer?
    ensures |Answers(cfg, cache, events)| == Offers(events) && Offers(events[..j]) < Offers(events)
    ensures Answers(cfg, cache, events)[Offers(events[..j])]
            == Forwards(cfg, Run(cfg, cache, events[..j]), events[j].spot)
    decreases |events|
  {
    hide Forwards, Run, Answers, Offers;
    var n := |events| - 1;
    AnswersStep(cfg, cache, events);
    AnswerCount(cfg, cache, events[..n]);
    if j < n {
      AnswerAt(cfg, cache, events[..n], j);
      assert events[..n][..j] == events[..j];
    }
  }

  lemma {:induction false} AnswerCount(cfg: Config, cache: Cache, events: seq<Event>)
    ensures |Answers(cfg, cache, events)| == Offers(events)
  {
    hide Forwards, Run;
    if events != [] { AnswerCount(cfg, cache, events[..|events| - 1]); }
  }

  /** The answers without cleanups, one event at a time. */
  lemma KeptAnswersStep(cfg: Config, cache: Cache, events: seq<Event>)
    requires events != []
    ensures var n := |events| - 1;
            var before := Answers(cfg, cache, WithoutCleanups(events[..n]));
            Answers(cfg, cache, WithoutCleanups(events))
            == if events[n].Offer?
               then before + [Forwards(cfg, Run(cfg, cache, WithoutCleanups(events[..n])), events[n].spot)]
               else before
  {
    hide Forwards, Run, Answers, Offers, WithoutCleanups;
    KeptStep(events);
    if !events[|events| - 1].Cleanup? { AnswersStep(cfg, cache, WithoutCleanups(events)); }
  }

  lemma {:induction false} KeptAnswerAt(cfg: Config, cache: Cache, events: seq<Event>, j: nat)
    requires j < |events| && events[j].Offer?
    ensures var kept := Answers(cfg, cache, WithoutCleanups(events));
            |kept| == Offers(events) && Offers(events[..j]) < |kept|
            && kept[Offers(events[..j])] == Forwards(cfg, Run(cfg, cache, WithoutCleanups(events[..j])), events[j].spot)
    decreases |events|
  {
    hide Forwards, Run, Answers, Offers, WithoutCleanups;
    var n := |events| - 1;
    AnswersStep(cfg, cache, events);
    KeptAnswersStep(cfg, cache, events);
    KeptCount(cfg, cache, events[..n]);
    if j < n {
      KeptAnswerAt(cfg, cache, events[..n], j);
      assert events[..n][..j] == events[..j];
    }
  }

  lemma {:induction false} KeptCount(cfg: Config, cache: Cache, events: seq<Event>)
    ensures |Answers(cfg, cache, WithoutCleanups(events))| == Offers(events)
  {
    if events != [] {
      hide Forwards, Run, Answers, Offers, WithoutCleanups;
      AnswersStep(cfg, cache, events);
      KeptAnswersStep(cfg, cache, events);
      KeptCount(cfg, cache, events[..|events| - 1]);
    }
  }

  lemma KeptStep(events: seq<Event>)
    requires events != []
    ensures var n := |events| - 1;
            var less, all := WithoutCleanups(events[..n]), WithoutCleanups(events);
            if events[n].Cleanup? then all == less else all == less + [events[n]] && all[..|less|] == less
  {
  }

  /** The schedule with every offer but the one at j waved through, and nothing deleted. */
  function Quiet(events: seq<Event>, j: nat): (r: seq<Event>)
    ensures |r| == |events|
  {
    seq(|events|, m requires 0 <= m < |events| =>
      match events[m]
      case Offer(s) => Offer(Spot(0, s.time, 0, false, if m == j then 1 else 0))
      case Cleanup(now) => Cleanup(now)
      case Drop(_) => Drop({}))
  }

  /** Before its one live offer a quiet run only cleans: what it keeps is what the cache held
      and no cleanup so far expired. */
  lemma {:induction false} QuietRun(cfg: Config, cache: Cache, events: seq<Event>, j: nat, m: nat, i: nat)
    requires cfg.secondary && cfg.window > 0 && m <= j < |events|
    ensures var now := Run(cfg, cache, Quiet(events, j)[..m]);
            && (forall k :: k in now ==> k in cache && now[k] == cache[k])
            && (i < m && events[i].Cleanup? ==>
                  forall k :: k in now ==> Sub(events[i].now, cache[k].when) <= cfg.window)
  {
    if m > 0 {
      hide Judge, Sub, Quiet, Step, Run;
      var q := Quiet(events, j);
      QuietRun(cfg, cache, events, j, m - 1, i);
      assert q[..m][..m - 1] == q[..m - 1];
      QuietStep(cfg, Run(cfg, cache, q[..m - 1]), events, j, m - 1);
      assert q[..m - 1] + [q[m - 1]] == q[..m];
      RunThen(cfg, cache, q[..m - 1], q[m - 1]);
    }
  }

  lemma QuietStep(cfg: Config, cache: Cache, events: seq<Event>, j: nat, m: nat)
    requires cfg.secondary && m < j < |events|
    ensures Step(cfg, cache, Quiet(events, j)[m])
            == if events[m].Cleanup? then Cleaned(cfg, cache, events[m].now) else cache
    ensures Quiet(events, j)[m].Cleanup? <==> events[m].Cleanup?
  {
    hide Judge, Cleaned;
    assert cache - {} == cache;
  }

  /** Without its cleanups it keeps everything. */
  lemma {:induction false} QuietKeeps(cfg: Config, cache: Cache, events: seq<Event>, j: nat, m: nat)
    requires cfg.secondary && m <= j < |events|
    ensures Run(cfg, cache, WithoutCleanups(Quiet(events, j)[..m])) == cache
  {
    hide Step, Quiet, Cleaned, Judge;
    var q := Quiet(events, j);
    if m == 0 {
      assert q[..0] == [];
    } else {
      hide WithoutCleanups, Run;
      QuietKeeps(cfg, cache, events, j, m - 1);
      assert q[..m][..m - 1] == q[..m - 1];
      KeptStep(q[..m]);
      QuietStep(cfg, cache, events, j, m - 1);
      if !q[m - 1].Cleanup? { RunThen(cfg, cache, WithoutCleanups(q[..m - 1]), q[m - 1]); }
    }
  }

  lemma RunThen(cfg: Config, cache: Cache, events: seq<Event>, e: Event)
    ensures Run(cfg, cache, events + [e]) == Step(cfg, Run(cfg, cache, events), e)
  {
    hide Step;
    assert (events + [e])[..|events|] == events;
  }

  /** An offer too early after a cleanup: some cache and spots show the cleanup. */
  lemma UntimelyShows(cfg: Config, events: seq<Event>, i: nat, j: nat)
    requires cfg.secondary && 0 < cfg.window < MAX_INT64
    requires i < j < |events| && events[i].Cleanup? && events[j].Offer?
    requires events[j].spot.time < events[i].now - 1
    ensures !Invisible(cfg, events)
  {
    hide Judge, Sub, InWindow, Run, Answers, WithoutCleanups;
    var t, now := events[j].spot.time, events[i].now;
    var cache: Cache := map[0 := Entry(Min(t, now - cfg.window - 1), 0, false)];
    var q := Quiet(events, j);
    assert SameSchedule(events, q);
    QuietRun(cfg, cache, events, j, j, i);
    QuietKeeps(cfg, cache, events, j, j);
    AnswerAt(cfg, cache, q, j);
    KeptAnswerAt(cfg, cache, q, j);
    ExpiredYetInWindow(cfg, t, now);
    var left := Run(cfg, cache, q[..j]);
    assert 0 !in left;
    NotCached(cfg, left, q[j].spot);
    StillCached(cfg, cache, q[j].spot);
  }

  /** An entry one window before the cleanup, or as early as the spot, is expired for the
      cleanup and in the window of the spot. */
  lemma ExpiredYetInWindow(cfg: Config, t: int, now: int)
    requires 0 < cfg.window < MAX_INT64 && t < now - 1
    ensures var when := Min(t, now - cfg.window - 1);
            Sub(now, when) > cfg.window && InWindow(cfg, t, when)
  {
    InWindowIff(cfg, t, Min(t, now - cfg.window - 1));
    hide InWindow;
  }

  lemma NotCached(cfg: Config, cache: Cache, s: Spot)
    requires s.hash !in cache
    ensures Forwards(cfg, cache, s)
  {
  }

  lemma StillCached(cfg: Config, cache: Cache, s: Spot)
    requires s.hash in cache && InWindow(cfg, s.time, cache[s.hash].when)
    requires s == Spot(s.hash, s.time, 0, false, 1) && cache[s.hash].snr == 0 && cfg.window > 0
    ensures !Forwards(cfg, cache, s)
  {
    hide InWindow;
  }

  lemma {:induction false} IdleRun(cfg: Config, cache: Cache, events: seq<Event>)
    requires Idle(cfg)
    ensures Run(cfg, cache, events) == Run(cfg, cache, WithoutCleanups(events))
    ensures Answers(cfg, cache, events) == Answers(cfg, cache, WithoutCleanups(events))
  {
    hide Judge, Idle, Cleaned;
    if events != [] {
      var n := |events| - 1;
      IdleRun(cfg, cache, events[..n]);
      KeptStep(events);
      if events[n].Cleanup? { IdleCleans(cfg, Run(cfg, cache, events[..n]), events[n].now); }
    }
  }

  /** Main cleanup result: cleanup passes at given times are invisible, whatever the cache and the
      spots offered, if and only if no offer comes more than a nanosecond before a cleanup that
      precedes it, or cleanup is idle. */
  lemma InvisibleIff(cfg: Config, events: seq<Event>)
    requires cfg.secondary
    ensures Invisible(cfg, events) <==> Timely(events) || Idle(cfg)
  {
    hide Answers, WithoutCleanups, Run, SameSchedule;
    if Idle(cfg) {
      forall cache: Cache, evs | SameSchedule(events, evs)
        ensures Answers(cfg, cache, evs) == Answers(cfg, cache, WithoutCleanups(evs))
      {
        IdleRun(cfg, cache, evs);
      }
    } else if Timely(events) {
      forall cache: Cache, evs | SameSchedule(events, evs)
        ensures Answers(cfg, cache, evs) == Answers(cfg, cache, WithoutCleanups(evs))
      {
        TimelySchedule(events, evs);
        CleanupInvisible(cfg, cache, evs);
      }
    } else {
      var i, j :| 0 <= i < j < |events| && events[i].Cleanup? && events[j].Offer?
                  && events[j].spot.time < events[i].now - 1;
      UntimelyShows(cfg, events, i, j);
    }
  }

  // ---------------------------------------------------------------- what is forwarded

  /** Event j offers a spot that is looked at. */
  predicate Looked(cfg: Config, e: Event) {
    e.Offer? && !Skips(cfg, e.spot)
  }

  function VerdictAt(cfg: Config, cache: Cache, events: seq<Event>, j: nat): (v: Verdict)
    requires j < |events| && events[j].Offer?
  {
    Judge(cfg, Run(cfg, cache, events[..j]), events[j].spot)
  }

  /** Event j puts its spot into the cache under key h. */
  predicate Accepts(cfg: Config, cache: Cache, events: seq<Event>, j: nat, h: uint32)
    requires j < |events|
  {
    Looked(cfg, events[j]) && events[j].spot.hash == h && !VerdictAt(cfg, cache, events, j).Duplicate?
  }

  lemma RunSnoc(cfg: Config, cache: Cache, events: seq<Event>, j: nat)
    requires j < |events|
    ensures Run(cfg, cache, events[..j + 1]) == Step(cfg, Run(cfg, cache, events[..j]), events[j])
  {
    assert events[..j + 1][..j] == events[..j];
  }

  /** The event cannot remove the entry of key h. */
  predicate Leaves(e: Event, h: uint32) {
    e.Offer? || (e.Drop? && h !in e.keys)
  }

  /** Until something else is accepted under its key, an accepted spot is what the cache
      holds, unless a removal took it. */
  lemma {:induction false} CachedSince(cfg: Config, cache: Cache, events: seq<Event>, i: nat, j: nat)
    requires i < j <= |events| && events[i].Offer? && Accepts(cfg, cache, events, i, events[i].spot.hash)
    requires forall m :: i < m < j ==> !Accepts(cfg, cache, events, m, events[i].spot.hash)
    ensures var now := Run(cfg, cache, events[..j]);
            var h := events[i].spot.hash;
            (h in now ==> now[h] == EntryOf(events[i].spot))
            && ((forall m :: i < m < j ==> Leaves(events[m], h)) ==> h in now)
  {
    hide InWindow, Improves, Run;
    var n := j - 1;
    RunSnoc(cfg, cache, events, n);
    if i < n {
      CachedSince(cfg, cache, events, i, n);
      assert !Accepts(cfg, cache, events, n, events[i].spot.hash);
    }
  }

  /** Between removals, a spot is forwarded exactly when it is out of the window of the last
      spot accepted under its key, newly reported, or (when preferred) strictly stronger. */
  lemma ForwardedIff(cfg: Config, cache: Cache, events: seq<Event>, i: nat, j: nat)
    requires i < j < |events| && events[i].Offer? && Looked(cfg, events[j])
    requires Accepts(cfg, cache, events, i, events[j].spot.hash)
    requires forall m :: i < m < j ==>
               Leaves(events[m], events[j].spot.hash) && !Accepts(cfg, cache, events, m, events[j].spot.hash)
    ensures var s, last := events[j].spot, events[i].spot;
            !VerdictAt(cfg, cache, events, j).Duplicate? <==>
              || !InWindow(cfg, s.time, last.time)
              || (s.hasReport && !last.hasReport)
              || (cfg.preferStronger && s.report > last.report)
  {
    hide InWindow, Run;
    CachedSince(cfg, cache, events, i, j);
  }

  /** With prefer-stronger off, two in-window acceptances of a key never follow each other:
      a spot accepted as fresh stands between them, removals or not. */
  lemma NotBetterTwice(cfg: Config, cache: Cache, events: seq<Event>, i: nat, j: nat)
    requires !cfg.preferStronger && i < j < |events|
    requires Looked(cfg, events[i]) && Looked(cfg, events[j]) && events[i].spot.hash == events[j].spot.hash
    requires VerdictAt(cfg, cache, events, i).Better? && VerdictAt(cfg, cache, events, j).Better?
    ensures exists m :: i < m < j && Accepts(cfg, cache, events, m, events[i].spot.hash)
                        && VerdictAt(cfg, cache, events, m).Fresh?
    decreases j - i
  {
    hide InWindow, Run;
    var h := events[i].spot.hash;
    if m :| i < m < j && Accepts(cfg, cache, events, m, h) {
      if VerdictAt(cfg, cache, events, m).Better? { NotBetterTwice(cfg, cache, events, i, m); }
    } else {
      CachedSince(cfg, cache, events, i, j);
    }
  }

  // ---------------------------------------------------------------- counters

  /** The two counters of a run. */
  datatype Counters = Counters(processed: nat, duplicates: nat)

  function Counted(cfg: Config, cache: Cache, c: Counters, s: Spot): (r: Counters) {
    if Skips(cfg, s) then c
    else Counters(c.processed + 1, c.duplicates + if Judge(cfg, cache, s).Duplicate? then 1 else 0)
  }

  function CountersOf(cfg: Config, cache: Cache, events: seq<Event>): (c: Counters) {
    if events == [] then Counters(0, 0) else
      var n := |events| - 1;
      var c := CountersOf(cfg, cache, events[..n]);
      if events[n].Offer? then Counted(cfg, Run(cfg, cache, events[..n]), c, events[n].spot) else c
  }

  function Accepted(cfg: Config, cache: Cache, events: seq<Event>): (n: nat) {
    if events == [] then 0 else
      var n := |events| - 1;
      Accepted(cfg, cache, events[..n])
      + if Looked(cfg, events[n]) && !VerdictAt(cfg, cache, events, n).Duplicate? then 1 else 0
  }

  /** The false answers of a run. */
  function Suppressed(answers: seq<bool>): (n: nat) {
    if answers == [] then 0 else
      Suppressed(answers[..|answers| - 1]) + if answers[|answers| - 1] then 0 else 1
  }

  /** Processed is accepted plus duplicates, and the duplicates are the suppressed spots. */
  lemma {:induction false} CountersExact(cfg: Config, cache: Cache, events: seq<Event>)
    ensures var c := CountersOf(cfg, cache, events);
            c.processed == Accepted(cfg, cache, events) + c.duplicates
            && c.duplicates == Suppressed(Answers(cfg, cache, events))
  {
    hide Judge, Run;
    if events != [] {
      var n := |events| - 1;
      CountersExact(cfg, cache, events[..n]);
      var before := Answers(cfg, cache, events[..n]);
      if events[n].Offer? {
        assert Answers(cfg, cache, events)[..|before|] == before;
      } else {
        assert Answers(cfg, cache, events) == before;
      }
    }
  }
}
