/** The lock-free ring of recent spots: writers reserve an id, then publish; readers walk the
    slots backwards while both go on. */
module Ring {
  import opened Common

  /** A published spot: the id its writer reserved, and the rest. */
  datatype Spot<T> = Spot(id: nat, body: T)

  /** The buffer, the ids reserved but not yet published, and every spot ever added. */
  datatype State<T> = State(slots: seq<Option<Spot<T>>>, pending: set<nat>, added: seq<T>) {
    function Total(): (n: nat) { |added| }
  }

  /** The two atomic steps of Add, by any number of writers. */
  datatype Event<T> = Reserve(body: T) | Publish(id: nat)

  function SlotOf(cap: nat, id: nat): (k: nat)
    requires cap > 0 && id > 0
    ensures k < cap
  {
    (id - 1) % cap
  }

  function Empty<T>(cap: nat): (s: State<T>) {
    State(seq(cap, _ => None), {}, [])
  }

  predicate Enabled<T>(s: State<T>, e: Event<T>) {
    |s.slots| > 0 && (e.Publish? ==> e.id in s.pending && 0 < e.id <= s.Total())
  }

  function Step<T>(s: State<T>, e: Event<T>): (r: State<T>)
    requires Enabled(s, e)
  {
    match e
    case Reserve(body) => State(s.slots, s.pending + {|s.added| + 1}, s.added + [body])
    case Publish(id) =>
      State(s.slots[SlotOf(|s.slots|, id) := Some(Spot(id, s.added[id - 1]))], s.pending - {id}, s.added)
  }

  predicate Runs<T>(s: State<T>, events: seq<Event<T>>)
    decreases |events|, 0
  {
    events == [] || (Runs(s, events[..|events| - 1])
                     && Enabled(After(s, events[..|events| - 1]), events[|events| - 1]))
  }

  function After<T>(s: State<T>, events: seq<Event<T>>): (r: State<T>)
    requires Runs(s, events)
    decreases |events|, 1
  {
    if events == [] then s else Step(After(s, events[..|events| - 1]), events[|events| - 1])
  }

  // ---------------------------------------------------------------- what slots hold

  /** The slot's spot is one that was added, under the id it was given, and is published. */
  predicate SlotOk<T(==)>(s: State<T>, k: nat)
    requires k < |s.slots|
  {
    s.slots[k].Some? ==>
      var sp := s.slots[k].value;
      0 < sp.id <= s.Total() && SlotOf(|s.slots|, sp.id) == k && sp.id !in s.pending && sp.body == s.added[sp.id - 1]
  }

  ghost predicate Sound<T>(s: State<T>) {
    && |s.slots| > 0
    && (forall k :: 0 <= k < |s.slots| ==> SlotOk(s, k))
    && (forall id :: id in s.pending ==> 0 < id <= s.Total())
  }

  lemma StepOk<T>(s: State<T>, e: Event<T>)
    requires Sound(s) && Enabled(s, e)
    ensures Sound(Step(s, e)) && |Step(s, e).slots| == |s.slots| && s.added <= Step(s, e).added
  {
    hide SlotOf;
    var r := Step(s, e);
    forall k | 0 <= k < |r.slots| ensures SlotOk(r, k) {
      assert SlotOk(s, k);
      if e.Publish? && s.slots[k].Some? && s.slots[k].value.id == e.id { assert false; }
    }
  }

  lemma {:induction false} RunOk<T>(s: State<T>, events: seq<Event<T>>)
    requires Sound(s) && Runs(s, events)
    ensures Sound(After(s, events)) && |After(s, events).slots| == |s.slots| && s.added <= After(s, events).added
  {
    hide Sound, Step, Enabled;
    if events != [] {
      var n := |events| - 1;
      RunOk(s, events[..n]);
      StepOk(After(s, events[..n]), events[n]);
    }
  }

  // ---------------------------------------------------------------- reading while writers run

  /** A reader past index idx: total is its snapshot, lo its lowest index, n the spots wanted. */
  datatype Reader<T> = Reader(total: nat, lo: nat, n: nat, idx: nat, result: seq<Spot<T>>)

  /** The slot at an index, when it holds the spot of that index. */
  function At<T>(slots: seq<Option<Spot<T>>>, idx: nat): (r: Option<Spot<T>>)
    requires |slots| > 0
  {
    var sp := slots[idx % |slots|];
    if sp.Some? && sp.value.id == idx + 1 then sp else None
  }

  function Started<T>(s: State<T>, n: int): (r: Reader<T>) {
    var available := Min(s.Total(), |s.slots|);
    Reader(s.Total(), s.Total() - available, if n <= 0 then 0 else Min(n, available), s.Total(), [])
  }

  predicate Reading<T>(r: Reader<T>) {
    r.idx > r.lo && |r.result| < r.n
  }

  /** One turn of the reader's loop, on the slots as they are by then. */
  function Loaded<T>(s: State<T>, r: Reader<T>): (next: Reader<T>)
    requires Reading(r) && |s.slots| > 0
  {
    var sp := At(s.slots, r.idx - 1);
    r.(idx := r.idx - 1, result := if sp.Some? then r.result + [sp.value] else r.result)
  }

  predicate Descending<T>(result: seq<Spot<T>>) {
    forall i, j :: 0 <= i < j < |result| ==> result[i].id > result[j].id
  }

  /** Spots as they were added, ids strictly decreasing, between idx and total. */
  ghost predicate Held<T>(added: seq<T>, total: nat, idx: nat, result: seq<Spot<T>>) {
    && total <= |added| && Descending(result)
    && forall i :: 0 <= i < |result| ==>
         idx < result[i].id <= total && result[i].body == added[result[i].id - 1]
  }

  /** What a reader holds: such spots, all of them published, from the last cap ids of its
      snapshot, and no more of them than asked for. */
  ghost predicate ReaderOk<T>(s: State<T>, r: Reader<T>) {
    && r.lo <= r.idx <= r.total && r.total - r.lo <= |s.slots|
    && |r.result| <= r.n && Held(s.added, r.total, r.idx, r.result)
    && forall i :: 0 <= i < |r.result| ==> r.result[i].id !in s.pending
  }

  lemma StartedOk<T>(s: State<T>, n: int)
    requires Sound(s)
    ensures ReaderOk(s, Started(s, n))
  {
  }

  lemma LoadedOk<T>(s: State<T>, r: Reader<T>)
    requires Sound(s) && ReaderOk(s, r) && Reading(r)
    ensures ReaderOk(s, Loaded(s, r))
  {
    hide Sound, At, Held;
    AtOk(s, r.idx - 1);
    HeldLower(s.added, r.total, r.idx, r.result);
    var sp := At(s.slots, r.idx - 1);
    if sp.Some? { HeldSnoc(s.added, r.total, r.idx, r.result, sp.value); }
  }

  lemma HeldLower<T>(added: seq<T>, total: nat, idx: nat, result: seq<Spot<T>>)
    requires Held(added, total, idx, result) && idx > 0
    ensures Held(added, total, idx - 1, result)
  {
  }

  lemma HeldSnoc<T>(added: seq<T>, total: nat, idx: nat, result: seq<Spot<T>>, sp: Spot<T>)
    requires Held(added, total, idx, result) && 0 < idx <= total <= |added| && sp == Spot(idx, added[idx - 1])
    ensures Held(added, total, idx - 1, result + [sp])
  {
  }

  lemma AtOk<T>(s: State<T>, idx: nat)
    requires Sound(s)
    ensures var sp := At(s.slots, idx);
            sp.Some? ==>
              sp.value.id == idx + 1 <= s.Total() && sp.value.body == s.added[idx] && sp.value.id !in s.pending
  {
    hide SlotOf;
    var k := idx % |s.slots|;
    assert SlotOk(s, k);
  }

  /** What a turn of either side leaves of the other: writers never disturb a reader. */
  lemma ReaderUndisturbed<T>(s: State<T>, r: Reader<T>, e: Event<T>)
    requires Sound(s) && ReaderOk(s, r) && Enabled(s, e)
    ensures ReaderOk(Step(s, e), r)
  {
    hide Sound, SlotOf, Descending;
  }

  /** An interleaving: any number of writer steps, a turn of the reader, and so on. */
  datatype Turn<T> = Write(e: Event<T>) | Load

  ghost predicate Interleaves<T>(s: State<T>, r: Reader<T>, turns: seq<Turn<T>>)
    decreases |turns|
  {
    turns == [] ||
    match turns[0]
    case Write(e) => Enabled(s, e) && Interleaves(Step(s, e), r, turns[1..])
    case Load => |s.slots| > 0 && Reading(r) && Interleaves(s, Loaded(s, r), turns[1..])
  }

  ghost function Interleaved<T>(s: State<T>, r: Reader<T>, turns: seq<Turn<T>>): (end: (State<T>, Reader<T>))
    requires Interleaves(s, r, turns)
    decreases |turns|
  {
    if turns == [] then (s, r)
    else match turns[0]
      case Write(e) => Interleaved(Step(s, e), r, turns[1..])
      case Load => Interleaved(s, Loaded(s, r), turns[1..])
  }

  /** Under every interleaving of writers with a reader, the reader's result stays sound. */
  lemma {:induction false} InterleavedOk<T>(s: State<T>, r: Reader<T>, turns: seq<Turn<T>>)
    requires Sound(s) && ReaderOk(s, r) && Interleaves(s, r, turns)
    ensures Sound(Interleaved(s, r, turns).0)
    ensures ReaderOk(Interleaved(s, r, turns).0, Interleaved(s, r, turns).1)
    decreases |turns|
  {
    hide Sound, ReaderOk, Step, Loaded, Enabled, Reading;
    if turns != [] {
      match turns[0]
      case Write(e) =>
        StepOk(s, e);
        ReaderUndisturbed(s, r, e);
        InterleavedOk(Step(s, e), r, turns[1..]);
      case Load =>
        LoadedOk(s, r);
        InterleavedOk(s, Loaded(s, r), turns[1..]);
    }
  }

  /** A spot that stays in its slot while the reader passes is in the result: either the
      reader is still to come by, or it has it. */
  lemma {:induction false} StayingSpotSeen<T>(s: State<T>, r: Reader<T>, turns: seq<Turn<T>>, sp: Spot<T>)
    requires Sound(s) && Interleaves(s, r, turns) && 0 < sp.id
    requires if r.idx >= sp.id then At(s.slots, sp.id - 1) == Some(sp) else sp in r.result
    requires forall i :: 0 <= i < |turns| && turns[i].Write? && turns[i].e.Publish? ==>
               0 < turns[i].e.id && SlotOf(|s.slots|, turns[i].e.id) != SlotOf(|s.slots|, sp.id)
    ensures Interleaved(s, r, turns).1.idx < sp.id ==> sp in Interleaved(s, r, turns).1.result
    decreases |turns|
  {
    hide Sound, Enabled;
    if turns != [] {
      match turns[0]
      case Write(e) =>
        StepOk(s, e);
        StayingSpotSeen(Step(s, e), r, turns[1..], sp);
      case Load =>
        StayingSpotSeen(s, Loaded(s, r), turns[1..], sp);
    }
  }

  // ---------------------------------------------------------------- reading at rest

  /** Every published id is in its slot or was overtaken there by a later one. */
  ghost predicate Newest<T>(s: State<T>) {
    |s.slots| > 0 &&
    forall id :: 0 < id <= s.Total() && id !in s.pending ==>
      s.slots[SlotOf(|s.slots|, id)].Some? && s.slots[SlotOf(|s.slots|, id)].value.id >= id
  }

  /** The step does not overwrite a later spot. */
  predicate InOrder<T>(s: State<T>, e: Event<T>)
    requires Enabled(s, e)
  {
    e.Publish? ==> var sp := s.slots[SlotOf(|s.slots|, e.id)]; sp.Some? ==> sp.value.id < e.id
  }

  /** A step keeps every slot at its newest spot exactly when it is in order. */
  lemma NewestIff<T>(s: State<T>, e: Event<T>)
    requires Sound(s) && Newest(s) && Enabled(s, e)
    ensures Newest(Step(s, e)) <==> InOrder(s, e)
  {
    hide SlotOf;
    var r := Step(s, e);
    if e.Publish? {
      var k := SlotOf(|s.slots|, e.id);
      assert SlotOk(s, k);
      if !InOrder(s, e) {
        var later := s.slots[k].value.id;
        assert r.slots[k].value.id == e.id && later != e.id && SlotOf(|r.slots|, later) == k;
      }
    }
  }

  /** Every publication of the run is in order. */
  ghost predicate RunsInOrder<T>(s: State<T>, events: seq<Event<T>>)
    requires Runs(s, events)
    decreases |events|
  {
    events == [] ||
    (RunsInOrder(s, events[..|events| - 1]) && InOrder(After(s, events[..|events| - 1]), events[|events| - 1]))
  }

  lemma {:induction false} RunNewest<T>(s: State<T>, events: seq<Event<T>>)
    requires Sound(s) && Newest(s) && Runs(s, events) && RunsInOrder(s, events)
    ensures Newest(After(s, events))
  {
    hide Sound, Newest, Step, Enabled, InOrder;
    if events != [] {
      var n := |events| - 1;
      RunNewest(s, events[..n]);
      RunOk(s, events[..n]);
      NewestIff(After(s, events[..n]), events[n]);
    }
  }

  /** A single writer, which publishes each spot before it reserves the next. */
  ghost predicate OneWriter<T>(s: State<T>, events: seq<Event<T>>)
    requires Runs(s, events)
    decreases |events|
  {
    events == [] ||
    (OneWriter(s, events[..|events| - 1])
     && (events[|events| - 1].Reserve? ==> After(s, events[..|events| - 1]).pending == {}))
  }

  /** The one pending id of a single writer is the latest. */
  lemma {:induction false} OneWriterInOrder<T>(s: State<T>, events: seq<Event<T>>)
    requires Sound(s) && s.pending == {} && Runs(s, events) && OneWriter(s, events)
    ensures RunsInOrder(s, events)
    ensures forall id :: id in After(s, events).pending ==> id == After(s, events).Total()
  {
    if events != [] {
      var n := |events| - 1;
      OneWriterInOrder(s, events[..n]);
      RunOk(s, events[..n]);
      PublishLatest(After(s, events[..n]), events[n]);
    }
  }

  lemma PublishLatest<T>(s: State<T>, e: Event<T>)
    requires Sound(s) && Enabled(s, e) && forall id :: id in s.pending ==> id == s.Total()
    ensures InOrder(s, e)
  {
    if e.Publish? { assert SlotOk(s, SlotOf(|s.slots|, e.id)); }
  }

  /** Two writers out of step: with one slot, the first id is published over the second. */
  lemma LappedWriterHidesSpot()
    ensures var events := [Reserve(10), Reserve(20), Publish(2), Publish(1)];
            Runs(Empty<int>(1), events)
            && var s := After(Empty<int>(1), events); s.pending == {} && !Newest(s)
  {
    var s0 := Empty<int>(1);
    var e1, e2, e3, e4 := [Reserve(10)], [Reserve(10), Reserve(20)], [Reserve(10), Reserve(20), Publish(2)],
      [Reserve(10), Reserve(20), Publish(2), Publish(1)];
    assert e1[..0] == [] && e2[..1] == e1 && e3[..2] == e2 && e4[..3] == e3;
    assert Runs(s0, e1) && After(s0, e1) == State([None], {1}, [10]);
    assert Runs(s0, e2) && After(s0, e2) == State([None], {1, 2}, [10, 20]);
    assert Runs(s0, e3) && After(s0, e3) == State([Some(Spot(2, 20))], {1}, [10, 20]);
    assert Runs(s0, e4) && After(s0, e4) == State([Some(Spot(1, 10))], {}, [10, 20]);
    assert SlotOf(1, 2) == 0;
  }

  /** The k newest spots, newest first. */
  function NewestSpots<T>(added: seq<T>, k: nat): (r: seq<Spot<T>>)
    requires k <= |added|
  {
    if k == 0 then [] else NewestSpots(added, k - 1) + [Spot(|added| - k + 1, added[|added| - k])]
  }

  function Filter<T>(s: seq<Spot<T>>, want: Spot<T> -> bool): (r: seq<Spot<T>>) {
    if s == [] then [] else
      Filter(s[..|s| - 1], want) + if want(s[|s| - 1]) then [s[|s| - 1]] else []
  }

  /** Filtering keeps exactly the wanted spots, in their order. */
  lemma {:induction false} FilterMeans<T>(s: seq<Spot<T>>, want: Spot<T> -> bool)
    ensures forall i :: 0 <= i < |Filter(s, want)| ==> Filter(s, want)[i] in s && want(Filter(s, want)[i])
    ensures forall j :: 0 <= j < |s| && want(s[j]) ==> s[j] in Filter(s, want)
    ensures Descending(s) ==> Descending(Filter(s, want))
  {
    if s != [] {
      var n := |s| - 1;
      FilterMeans(s[..n], want);
      FilteredAbove(s[..n], Filter(s[..n], want), s[n]);
    }
  }

  lemma FilteredAbove<T>(s: seq<Spot<T>>, kept: seq<Spot<T>>, last: Spot<T>)
    requires forall i :: 0 <= i < |kept| ==> kept[i] in s
    ensures (forall j :: 0 <= j < |s| ==> s[j].id > last.id) ==> forall i :: 0 <= i < |kept| ==> kept[i].id > last.id
  {
  }

  /** The wanted spots the walk from hi down to lo finds. */
  function Hits<T>(slots: seq<Option<Spot<T>>>, hi: nat, lo: nat, want: Spot<T> -> bool): (r: seq<Spot<T>>)
    requires |slots| > 0 && lo <= hi
    decreases hi - lo
  {
    if lo == hi then [] else
      Hits(slots, hi, lo + 1, want)
      + match At(slots, lo)
        case Some(sp) => if want(sp) then [sp] else []
        case None => []
  }

  /** With nothing pending and every slot at its newest, the last cap indices are all held. */
  lemma NewestAt<T>(s: State<T>, idx: nat)
    requires Sound(s) && Newest(s) && s.pending == {} && idx < s.Total() <= idx + |s.slots|
    ensures At(s.slots, idx) == Some(Spot(idx + 1, s.added[idx]))
  {
    var cap := |s.slots|;
    var k := SlotOf(cap, idx + 1);
    assert SlotOk(s, k);
    SameSlot(cap, idx, s.slots[k].value.id - 1);
  }

  lemma SameSlot(cap: nat, a: nat, b: nat)
    requires cap > 0 && a % cap == b % cap && a <= b < a + cap
    ensures a == b
  {
    NoGap(cap, a / cap, b / cap);
  }

  lemma NoGap(cap: nat, p: nat, q: nat)
    requires 0 <= cap * q - cap * p < cap
    ensures p == q
  {
    Gap(cap, q - p);
    assert cap * q - cap * p == cap * (q - p);
  }

  lemma Gap(cap: nat, d: int)
    ensures d >= 1 ==> cap * d >= cap
    ensures d <= -1 ==> cap * d + cap <= 0
  {
  }

  lemma {:induction false} HitsExact<T>(s: State<T>, lo: nat, want: Spot<T> -> bool)
    requires Sound(s) && Newest(s) && s.pending == {} && lo <= s.Total() <= lo + |s.slots|
    ensures Hits(s.slots, s.Total(), lo, want) == Filter(NewestSpots(s.added, s.Total() - lo), want)
    decreases s.Total() - lo
  {
    hide Sound, Newest, At;
    if lo < s.Total() {
      HitsExact(s, lo + 1, want);
      NewestAt(s, lo);
      var k := s.Total() - lo;
      var all := NewestSpots(s.added, k);
      assert all[..|all| - 1] == NewestSpots(s.added, k - 1);
    }
  }

  /** At rest, the walk over the last cap indices finds them all exactly when every slot is at
      its newest. */
  lemma AtRestIff<T>(s: State<T>)
    requires Sound(s) && s.pending == {}
    ensures Newest(s) <==>
            forall idx :: 0 <= idx < s.Total() <= idx + |s.slots| ==>
              At(s.slots, idx) == Some(Spot(idx + 1, s.added[idx]))
  {
    if Newest(s) {
      forall idx | 0 <= idx < s.Total() <= idx + |s.slots|
        ensures At(s.slots, idx) == Some(Spot(idx + 1, s.added[idx]))
      {
        NewestAt(s, idx);
      }
    } else if forall idx :: 0 <= idx < s.Total() <= idx + |s.slots| ==>
                At(s.slots, idx) == Some(Spot(idx + 1, s.added[idx])) {
      forall id | 0 < id <= s.Total()
        ensures s.slots[SlotOf(|s.slots|, id)].Some? && s.slots[SlotOf(|s.slots|, id)].value.id >= id
      {
        HeldLater(s, id);
      }
    }
  }

  /** Some index of the last cap ones shares the slot of an earlier id. */
  lemma {:induction false} HeldLater<T>(s: State<T>, id: nat)
    requires |s.slots| > 0 && 0 < id <= s.Total()
    requires forall idx :: 0 <= idx < s.Total() <= idx + |s.slots| ==>
               At(s.slots, idx) == Some(Spot(idx + 1, s.added[idx]))
    ensures s.slots[SlotOf(|s.slots|, id)].Some? && s.slots[SlotOf(|s.slots|, id)].value.id >= id
    decreases s.Total() - id
  {
    hide At, SlotOf;
    if s.Total() <= id - 1 + |s.slots| {
      assert At(s.slots, id - 1) == Some(Spot(id, s.added[id - 1]));
      AtIsSlot(s.slots, id);
    } else {
      HeldLater(s, id + |s.slots|);
      SlotRepeats(|s.slots|, id);
    }
  }

  lemma AtIsSlot<T>(slots: seq<Option<Spot<T>>>, id: nat)
    requires |slots| > 0 && id > 0 && At(slots, id - 1).Some?
    ensures slots[SlotOf(|slots|, id)] == At(slots, id - 1)
  {
  }

  lemma SlotRepeats(cap: nat, id: nat)
    requires cap > 0 && id > 0
    ensures SlotOf(cap, id + cap) == SlotOf(cap, id)
  {
    var q, r := (id - 1) / cap, (id - 1) % cap;
    assert id + cap - 1 == cap * (q + 1) + r;
    Remainder(cap, q + 1, r);
  }

  lemma Remainder(cap: nat, q: nat, r: nat)
    requires r < cap
    ensures (cap * q + r) % cap == r
  {
    var n := cap * q + r;
    NoGapBetween(cap, n / cap, q, n % cap, r);
  }

  lemma NoGapBetween(cap: nat, p: nat, q: nat, a: nat, b: nat)
    requires cap * p + a == cap * q + b && a < cap && b < cap
    ensures p == q && a == b
  {
    Gap(cap, q - p);
    assert cap * q - cap * p == cap * (q - p);
  }

  /** After any run of a single writer from an empty ring that leaves nothing pending, the
      walk from the top finds exactly the spots last added, newest first. */
  lemma OneWriterAtRest<T>(cap: nat, events: seq<Event<T>>, k: nat)
    requires cap > 0 && Runs(Empty(cap), events) && OneWriter(Empty(cap), events)
    requires After(Empty(cap), events).pending == {} && k <= Min(cap, After(Empty(cap), events).Total())
    ensures var s := After(Empty(cap), events);
            |s.slots| == cap && Hits(s.slots, s.Total(), s.Total() - k, _ => true) == NewestSpots(s.added, k)
  {
    hide Newest, Hits, OneWriter, RunsInOrder;
    var start := Empty<T>(cap);
    EmptyNewest<T>(cap);
    OneWriterInOrder(start, events);
    RunNewest(start, events);
    RunOk(start, events);
    var s := After(start, events);
    HitsExact(s, s.Total() - k, _ => true);
    FilterAll(NewestSpots(s.added, k), _ => true);
  }

  lemma EmptyNewest<T>(cap: nat)
    requires cap > 0
    ensures Sound(Empty<T>(cap)) && Newest(Empty<T>(cap))
  {
  }

  // ---------------------------------------------------------------- which runs read well

  /** The id last published into slot k. */
  function Last<T>(cap: nat, events: seq<Event<T>>, k: nat): (id: Option<nat>)
    requires cap > 0
  {
    if events == [] then None else
      var e := events[|events| - 1];
      if e.Publish? && e.id > 0 && SlotOf(cap, e.id) == k then Some(e.id) else Last(cap, events[..|events| - 1], k)
  }

  /** The schedule's condition: the last publication into every slot carries the highest id
      published there. */
  ghost predicate LastHighest<T>(cap: nat, events: seq<Event<T>>)
    requires cap > 0
  {
    forall j :: 0 <= j < |events| && events[j].Publish? && events[j].id > 0 ==>
      var last := Last(cap, events, SlotOf(cap, events[j].id));
      last.Some? && last.value >= events[j].id
  }

  lemma {:induction false} SlotHoldsLast<T>(cap: nat, events: seq<Event<T>>, k: nat)
    requires cap > 0 && k < cap && Runs(Empty(cap), events)
    ensures var s := After(Empty(cap), events);
            |s.slots| == cap
            && Last(cap, events, k) == match s.slots[k] case Some(sp) => Some(sp.id) case None => None
  {
    hide SlotOf;
    if events != [] { SlotHoldsLast(cap, events[..|events| - 1], k); }
  }

  ghost predicate Published<T>(events: seq<Event<T>>, id: nat) {
    exists j :: 0 <= j < |events| && events[j] == Publish(id)
  }

  /** Every reserved id is either pending or published, never both. */
  lemma {:induction false} PublishedIff<T>(cap: nat, events: seq<Event<T>>, id: nat)
    requires cap > 0 && Runs(Empty(cap), events)
    ensures Published(events, id) ==> 0 < id <= After(Empty(cap), events).Total()
    ensures 0 < id <= After(Empty(cap), events).Total() ==>
              (Published(events, id) <==> id !in After(Empty(cap), events).pending)
  {
    hide SlotOf;
    if events != [] {
      var n := |events| - 1;
      var less := events[..n];
      PublishedIff(cap, less, id);
      PublishedSnoc(less, events[n], id);
      assert events == less + [events[n]];
      EmptyNewest<T>(cap);
      RunOk(Empty(cap), less);
    }
  }

  lemma PublishedSnoc<T>(events: seq<Event<T>>, e: Event<T>, id: nat)
    ensures Published(events + [e], id) <==> Published(events, id) || e == Publish(id)
  {
    var longer := events + [e];
    assert longer[|events|] == e && forall j :: 0 <= j < |events| ==> longer[j] == events[j];
  }

  /** Every slot ends at its newest spot if and only if the schedule's last publication into
      each slot was its highest. */
  lemma NewestRunIff<T>(cap: nat, events: seq<Event<T>>)
    requires cap > 0 && Runs(Empty(cap), events)
    ensures Newest(After(Empty(cap), events)) <==> LastHighest(cap, events)
  {
    hide SlotOf, Last, Runs, After, Published;
    var s := After(Empty(cap), events);
    SlotHoldsLast(cap, events, 0);
    forall k | 0 <= k < cap
      ensures Last(cap, events, k) == match s.slots[k] case Some(sp) => Some(sp.id) case None => None
    {
      SlotHoldsLast(cap, events, k);
    }
    forall j | 0 <= j < |events| && events[j].Publish? ensures Published(events, events[j].id) {
      PublishedAt(events, j);
    }
    forall id: nat ensures Published(events, id) <==> 0 < id <= s.Total() && id !in s.pending {
      PublishedIff(cap, events, id);
    }
    if LastHighest(cap, events) {
      forall id | 0 < id <= s.Total() && id !in s.pending
        ensures s.slots[SlotOf(cap, id)].Some? && s.slots[SlotOf(cap, id)].value.id >= id
      {
        var j := PublicationOf(events, id);
      }
    }
  }

  lemma PublishedAt<T>(events: seq<Event<T>>, j: nat)
    requires j < |events| && events[j].Publish?
    ensures Published(events, events[j].id)
  {
    assert events[j] == Publish(events[j].id);
  }

  lemma PublicationOf<T>(events: seq<Event<T>>, id: nat) returns (j: nat)
    requires Published(events, id)
    ensures j < |events| && events[j] == Publish(id)
  {
    j :| 0 <= j < |events| && events[j] == Publish(id);
  }

  lemma {:induction false} HitsFull<T>(slots: seq<Option<Spot<T>>>, hi: nat, lo: nat, want: Spot<T> -> bool)
    requires |slots| > 0 && lo <= hi
    ensures |Hits(slots, hi, lo, want)| <= hi - lo
    ensures |Hits(slots, hi, lo, want)| == hi - lo ==> forall idx :: lo <= idx < hi ==> At(slots, idx).Some?
    decreases hi - lo
  {
    hide At;
    if lo < hi { HitsFull(slots, hi, lo + 1, want); }
  }

  /** At rest a read of everything finds the newest spots, all of them and in order, if and only
      if every slot is at its newest. */
  lemma ReadAllIff<T>(s: State<T>)
    requires Sound(s) && s.pending == {}
    ensures var n := Min(|s.slots|, s.Total());
            Hits(s.slots, s.Total(), s.Total() - n, _ => true) == NewestSpots(s.added, n) <==> Newest(s)
  {
    hide Newest, Hits, SlotOf, NewestSpots, Sound;
    SomeSlots(s);
    var n := Min(|s.slots|, s.Total());
    var found := Hits(s.slots, s.Total(), s.Total() - n, _ => true);
    NewestTake(s.added, n, n);
    if Newest(s) {
      HitsExact(s, s.Total() - n, _ => true);
      FilterAll(NewestSpots(s.added, n), _ => true);
    }
    if found == NewestSpots(s.added, n) {
      HitsFull(s.slots, s.Total(), s.Total() - n, _ => true);
      forall idx | 0 <= idx < s.Total() <= idx + |s.slots|
        ensures At(s.slots, idx) == Some(Spot(idx + 1, s.added[idx]))
      {
        AtOk(s, idx);
      }
      AtRestIff(s);
    }
  }

  lemma SomeSlots<T>(s: State<T>)
    requires Sound(s)
    ensures |s.slots| > 0
  {
  }

  /** Main result at rest: after any run of any number of writers that leaves nothing pending, a
      read finds exactly the newest spots in reverse order if and only if the last publication
      into every slot carried the highest id published there. */
  lemma AtRestReadIff<T>(cap: nat, events: seq<Event<T>>)
    requires cap > 0 && Runs(Empty(cap), events) && After(Empty(cap), events).pending == {}
    ensures var s := After(Empty(cap), events);
            var n := Min(cap, s.Total());
            |s.slots| == cap
            && (Hits(s.slots, s.Total(), s.Total() - n, _ => true) == NewestSpots(s.added, n) <==>
                LastHighest(cap, events))
  {
    hide Newest, Hits, NewestSpots, Runs, After, Sound;
    EmptyNewest<T>(cap);
    RunOk(Empty(cap), events);
    NewestRunIff(cap, events);
    ReadAllIff(After(Empty(cap), events));
  }

  /** Main result in motion: after any run, a read for n spots that starts there and proceeds in
      any interleaving with writers holds only published spots as they were added, ids strictly
      decreasing, from the last cap ids of its snapshot, and at most n of them. */
  lemma ReadSound<T>(cap: nat, events: seq<Event<T>>, n: int, turns: seq<Turn<T>>)
    requires cap > 0 && Runs(Empty(cap), events)
    requires Interleaves(After(Empty(cap), events), Started(After(Empty(cap), events), n), turns)
    ensures var s := After(Empty(cap), events);
            var (end, r) := Interleaved(s, Started(s, n), turns);
            && r.total == s.Total() && r.lo == s.Total() - Min(s.Total(), cap) && r.n <= Max(n, 0)
            && ReaderOk(end, r)
  {
    hide Sound, ReaderOk, Runs, After, Interleaves, Interleaved;
    EmptyNewest<T>(cap);
    RunOk(Empty(cap), events);
    var s := After(Empty(cap), events);
    StartedOk(s, n);
    InterleavedOk(s, Started(s, n), turns);
    SnapshotKept(s, Started(s, n), turns);
  }

  lemma {:induction false} SnapshotKept<T>(s: State<T>, r: Reader<T>, turns: seq<Turn<T>>)
    requires Interleaves(s, r, turns)
    ensures var end := Interleaved(s, r, turns).1; end.total == r.total && end.lo == r.lo && end.n == r.n
    decreases |turns|
  {
    hide At, SlotOf;
    if turns != [] {
      match turns[0]
      case Write(e) => SnapshotKept(Step(s, e), r, turns[1..]);
      case Load => SnapshotKept(s, Loaded(s, r), turns[1..]);
    }
  }

  lemma {:induction false} HitsPrefix<T>(slots: seq<Option<Spot<T>>>, hi: nat, mid: nat, lo: nat, want: Spot<T> -> bool)
    requires |slots| > 0 && lo <= mid <= hi
    ensures Hits(slots, hi, mid, want) <= Hits(slots, hi, lo, want)
    decreases mid - lo
  {
    hide At;
    if lo < mid { HitsPrefix(slots, hi, mid, lo + 1, want); }
  }

  const FILTER_MULTIPLIER := 20
  const FILTER_MAX := 5000

  /** How many indices GetRecentFiltered looks at for n spots. */
  function ScanLimit(n: int64): (k: int)
    requires n > 0
    ensures k >= 1 && k <= FILTER_MAX
    ensures k == Min(FILTER_MULTIPLIER * n, FILTER_MAX)
  {
    var k := Wrap64(n * FILTER_MULTIPLIER);
    var k' := if k < n then n else k;
    if k' > FILTER_MAX then FILTER_MAX else k'
  }

  class RingBuffer<T(0)> {
    const slots: array<Option<Spot<T>>>
    var total: nat
    ghost var pending: set<nat>
    ghost var added: seq<T>

    ghost function Abs(): (s: State<T>)
      reads this, slots
    {
      State(slots[..], pending, added)
    }

    ghost predicate Valid()
      reads this, slots
    {
      total == |added| && total < TWO63 && 0 < slots.Length < TWO63 && Sound(Abs())
    }

    constructor (capacity: nat)
      requires 0 < capacity < TWO63
      ensures Valid() && fresh(slots) && slots.Length == capacity && Abs() == Empty(capacity) && Newest(Abs())
    {
      slots := new Option<Spot<T>>[capacity](_ => None);
      total := 0;
      pending := {};
      added := [];
      new;
      assert slots[..] == seq(capacity, _ => None);
    }

    /** Add's first step: the atomic increment. */
    method Reserve(body: T) returns (id: nat)
      requires Valid() && total + 1 < TWO63
      modifies this
      ensures Valid() && id == total && Abs() == Step(old(Abs()), Event.Reserve(body))
    {
      hide SlotOf;
      StepOk(Abs(), Event.Reserve(body));
      total := total + 1;
      pending := pending + {total};
      added := added + [body];
      id := total;
    }

    /** Add's second step: the pointer store, possibly long after the first. */
    method Publish(id: nat, body: T)
      requires Valid() && id in pending && 0 < id <= total && body == added[id - 1]
      modifies this`pending, slots
      ensures Valid() && Abs() == Step(old(Abs()), Event.Publish(id))
    {
      hide SlotOf;
      StepOk(Abs(), Event.Publish(id));
      SlotIs(slots.Length, id);
      ghost var next := Step(Abs(), Event.Publish(id));
      pending := pending - {id};
      slots[(id - 1) % slots.Length] := Some(Spot(id, body));
      assert slots[..] == next.slots;
    }

    /** Add with no step of another writer in between, whatever others have reserved. */
    method Add(body: T)
      requires Valid() && total + 1 < TWO63
      modifies this, slots
      ensures Valid() && added == old(added) + [body] && pending == old(pending)
      ensures Abs() == Step(Step(old(Abs()), Event.Reserve(body)), Event.Publish(total))
      ensures old(Newest(Abs())) ==> Newest(Abs())
    {
      hide SlotOf, Newest;
      ghost var was := Abs();
      if Newest(was) { NewestIff(was, Event.Reserve(body)); }
      var id := Reserve(body);
      PublishTop(Abs());
      if Newest(Abs()) { NewestIff(Abs(), Event.Publish(id)); }
      Publish(id, body);
    }

    method GetRecent(n: int) returns (result: seq<Spot<T>>)
      requires Valid()
      ensures var available := Min(slots.Length, total);
              result == Take(Hits(slots[..], total, total - available, _ => true), Min(n, available))
      ensures pending == {} && Newest(Abs()) ==>
                result == NewestSpots(added, Max(0, Min(n, Min(slots.Length, total))))
    {
      hide Sound, Newest, Hits, Filter, NewestSpots;
      NewestNone(added);
      if n <= 0 { return []; }
      var available := if total > slots.Length then slots.Length else total;
      var want := if n > available then available else n;
      if total == 0 { return []; }
      result := Walk(want, total - available, total, _ => true);
      if pending == {} && Newest(Abs()) {
        HitsExact(Abs(), total - available, _ => true);
        FilterAll(NewestSpots(added, available), _ => true);
        NewestTake(added, available, want);
      }
    }

    method GetRecentFiltered(n: int64, want: Spot<T> -> bool) returns (result: seq<Spot<T>>)
      requires Valid()
      ensures n <= 0 || total == 0 ==> result == []
      ensures n > 0 && total > 0 ==>
                var limit := Min(n, Min(slots.Length, total));
                var seen := Min(ScanLimit(limit), Min(slots.Length, total));
                result == Take(Hits(slots[..], total, total - seen, want), limit)
                && (pending == {} && Newest(Abs()) ==>
                      result == Take(Filter(NewestSpots(added, seen), want), limit))
    {
      hide Sound, Newest, Hits, Filter, NewestSpots, ScanLimit;
      if n <= 0 { return []; }
      var available := if total > slots.Length then slots.Length else total;
      if available == 0 { return []; }
      var limit := if n > available then available else n;
      var scanLimit := ScanLimit(limit);
      var seen := if scanLimit < available then scanLimit else available;
      result := Walk(limit, total - available, scanLimit, want);
      if pending == {} && Newest(Abs()) { HitsExact(Abs(), total - seen, want); }
    }

    /** The loop of both reads, looking at scanLimit slots at most. */
    method Walk(n: nat, minIndex: nat, scanLimit: nat, want: Spot<T> -> bool) returns (result: seq<Spot<T>>)
      requires slots.Length > 0 && minIndex <= total
      ensures result == Take(Hits(slots[..], total, Max(minIndex, total - scanLimit), want), n)
    {
      hide Hits;
      result := [];
      var idx, scanned := total, 0;
      HitsNone(slots[..], total, want);
      while idx > minIndex && |result| < n && scanned < scanLimit
        invariant minIndex <= idx <= total && scanned == total - idx <= scanLimit && |result| <= n
        invariant result == Hits(slots[..], total, idx, want)
        decreases idx
      {
        HitsNext(slots[..], total, idx - 1, want);
        idx := idx - 1;
        scanned := scanned + 1;
        var sp := slots[idx % slots.Length];
        if sp.Some? && sp.value.id == idx + 1 {
          if !want(sp.value) { continue; }
          result := result + [sp.value];
        }
      }
      HitsPrefix(slots[..], total, idx, Max(minIndex, total - scanLimit), want);
    }
  }

  /** Publishing the id reserved last overwrites no later spot. */
  lemma PublishTop<T>(s: State<T>)
    requires Sound(s) && s.Total() > 0 && s.Total() in s.pending
    ensures Enabled(s, Publish(s.Total())) && InOrder(s, Publish(s.Total()))
  {
    assert SlotOk(s, SlotOf(|s.slots|, s.Total()));
  }

  lemma SlotIs(cap: nat, id: nat)
    requires cap > 0 && id > 0
    ensures SlotOf(cap, id) == (id - 1) % cap
  {
  }

  lemma NewestNone<T>(added: seq<T>)
    ensures NewestSpots(added, 0) == []
  {
  }

  lemma {:induction false} FilterAll<T>(s: seq<Spot<T>>, want: Spot<T> -> bool)
    requires forall i :: 0 <= i < |s| ==> want(s[i])
    ensures Filter(s, want) == s
  {
    if s != [] { FilterAll(s[..|s| - 1], want); }
  }

  lemma {:induction false} NewestTake<T>(added: seq<T>, k: nat, n: nat)
    requires n <= k <= |added|
    ensures |NewestSpots(added, k)| == k && Take(NewestSpots(added, k), n) == NewestSpots(added, n)
  {
    if k > 0 {
      if n < k { NewestTake(added, k - 1, n); } else { NewestTake(added, k - 1, k - 1); }
    }
  }

  lemma HitsNone<T>(slots: seq<Option<Spot<T>>>, hi: nat, want: Spot<T> -> bool)
    requires |slots| > 0
    ensures Hits(slots, hi, hi, want) == []
  {
  }

  lemma HitsNext<T>(slots: seq<Option<Spot<T>>>, hi: nat, lo: nat, want: Spot<T> -> bool)
    requires |slots| > 0 && lo < hi
    ensures var sp := slots[lo % |slots|];
            var found := Hits(slots, hi, lo + 1, want);
            Hits(slots, hi, lo, want)
            == if sp.Some? && sp.value.id == lo + 1 && want(sp.value) then found + [sp.value] else found
  {
  }
}
