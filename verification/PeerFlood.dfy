/** Flooding over a network of peers: any topology, any delivery order, any lost lines. */
module PeerFlood {
  import opened Common
  import opened PeerFrames

  /** The nodes with their sessions, and where each session leads: the node at the far end
      and the session that node knows the connection by. */
  datatype Net = Net(
    sessions: map<nat, seq<Session>>, wire: map<(nat, Session), (nat, Session)>,
    ttl: int64, maxAgeSeconds: int)

  /** A frame on its way to a node, to arrive on one of its sessions. */
  datatype Message = Message(node: nat, via: Session, frame: Frame)

  /** What the nodes did: a new key marked, a prune pass. */
  datatype Entry =
    | Mark(node: nat, key: string, at: int)
    | Prune(node: nat, at: int)

  datatype State = State(caches: map<nat, Items>, flight: seq<Message>, log: seq<Entry>)

  /** Deliver hands message i to its node; heard[j] is the frame the far end reads out of the
      j-th line sent, or nothing when that line is lost. Forget is a prune pass. */
  datatype Event =
    | Deliver(i: nat, now: int, clock: int, heard: seq<Option<Frame>>)
    | Forget(node: nat, now: int)

  function ItemsOf(caches: map<nat, Items>, node: nat): (items: Items) {
    if node in caches then caches[node] else map[]
  }

  function SessionsOf(net: Net, node: nat): (sessions: seq<Session>) {
    if node in net.sessions then net.sessions[node] else []
  }

  function SendsOf(net: Net, s: State, m: Message, clock: int): (r: seq<Send>) {
    Relayed(ItemsOf(s.caches, m.node), m.frame, m.via, SessionsOf(net, m.node), net.maxAgeSeconds, clock)
  }

  /** A heard frame has the kind and hop it was sent with; its key and payload are whatever
      the receiver makes of the line. */
  predicate Heard(net: Net, node: nat, sends: seq<Send>, heard: seq<Option<Frame>>) {
    |heard| == |sends| &&
    forall j :: 0 <= j < |heard| && heard[j].Some? ==>
      && heard[j].value.kind == sends[j].kind && heard[j].value.hop == sends[j].hop
      && (node, sends[j].session) in net.wire
  }

  predicate Enabled(net: Net, s: State, e: Event) {
    e.Deliver? ==>
      e.i < |s.flight| && Heard(net, s.flight[e.i].node, SendsOf(net, s, s.flight[e.i], e.clock), e.heard)
  }

  function Arrivals(net: Net, node: nat, sends: seq<Send>, heard: seq<Option<Frame>>): (r: seq<Message>)
    requires Heard(net, node, sends, heard)
    ensures |r| <= |sends|
    decreases |sends|
  {
    if sends == [] then [] else
      var n := |sends| - 1;
      Arrivals(net, node, sends[..n], heard[..n])
      + match heard[n]
        case None => []
        case Some(f) => var far := net.wire[(node, sends[n].session)]; [Message(far.0, far.1, f)]
  }

  function Step(net: Net, s: State, e: Event): (r: State)
    requires Enabled(net, s, e)
  {
    match e
    case Forget(node, now) =>
      s.(caches := s.caches[node := Pruned(ItemsOf(s.caches, node), net.ttl, now)], log := s.log + [Prune(node, now)])
    case Deliver(i, now, clock, heard) =>
      var m := s.flight[i];
      var items := ItemsOf(s.caches, m.node);
      State(
        s.caches[m.node := Handled(items, m.frame, now)],
        s.flight[..i] + s.flight[i + 1..] + Arrivals(net, m.node, SendsOf(net, s, m, clock), heard),
        if Marks(m.frame) && IsNew(items, m.frame.key) then s.log + [Mark(m.node, m.frame.key, now)] else s.log)
  }

  predicate Runs(net: Net, s: State, events: seq<Event>)
    decreases |events|
  {
    events != [] ==> Enabled(net, s, events[0]) && Runs(net, Step(net, s, events[0]), events[1..])
  }

  function After(net: Net, s: State, events: seq<Event>): (r: State)
    requires Runs(net, s, events)
    decreases |events|
  {
    if events == [] then s else After(net, Step(net, s, events[0]), events[1..])
  }

  // ---------------------------------------------------------------- termination

  ghost predicate DegreeAtMost(net: Net, d: nat) {
    forall n :: n in net.sessions ==> |net.sessions[n]| <= d
  }

  /** How many deliveries a frame can still cause, itself included, on nodes of degree d. */
  function Weight(d: nat, hop: int): (w: nat)
    ensures w >= 1
  {
    if hop <= 1 then 1 else 1 + d * Weight(d, hop - 1)
  }

  function Total(d: nat, flight: seq<Message>): (w: nat) {
    if flight == [] then 0 else
      Total(d, flight[..|flight| - 1]) + Weight(d, flight[|flight| - 1].frame.hop)
  }

  function Pow(b: nat, e: nat): (p: nat)
    ensures b > 0 ==> p > 0
  {
    if e == 0 then 1 else b * Pow(b, e - 1)
  }

  lemma {:induction false} WeightBound(d: nat, hop: nat)
    ensures Weight(d, hop) <= Pow(d + 1, hop)
  {
    if hop > 0 {
      WeightBound(d, hop - 1);
      OneMore(d, Weight(d, hop - 1), Pow(d + 1, hop - 1));
    }
  }

  lemma OneMore(d: nat, w: nat, p: nat)
    requires w <= p && p >= 1
    ensures 1 + d * w <= (d + 1) * p && 1 <= (d + 1) * p
  {
    TimesMonotone(w, p, d);
    assert (d + 1) * p == d * p + p;
  }

  lemma {:induction false} TotalConcat(d: nat, a: seq<Message>, b: seq<Message>)
    ensures Total(d, a + b) == Total(d, a) + Total(d, b)
  {
    if b == [] {
      assert a + b == a;
    } else {
      var n := |b| - 1;
      TotalConcat(d, a, b[..n]);
      assert (a + b)[..|a + b| - 1] == a + b[..n];
    }
  }

  lemma {:induction false} TotalUniform(d: nat, flight: seq<Message>, hop: int)
    requires forall m :: m in flight ==> m.frame.hop == hop
    ensures Total(d, flight) == |flight| * Weight(d, hop)
  {
    hide Weight;
    if flight != [] {
      var n := |flight| - 1;
      TotalUniform(d, flight[..n], hop);
      assert flight[n] in flight;
      assert (n + 1) * Weight(d, hop) == n * Weight(d, hop) + Weight(d, hop);
    }
  }

  lemma {:induction false} ArrivalHops(net: Net, node: nat, sends: seq<Send>, heard: seq<Option<Frame>>, m: Message)
    requires Heard(net, node, sends, heard) && m in Arrivals(net, node, sends, heard)
    ensures exists j :: 0 <= j < |sends| && sends[j].hop == m.frame.hop
    decreases |sends|
  {
    var n := |sends| - 1;
    if m in Arrivals(net, node, sends[..n], heard[..n]) {
      ArrivalHops(net, node, sends[..n], heard[..n], m);
    } else {
      assert sends[n].hop == m.frame.hop;
    }
  }

  lemma TotalArrivals(net: Net, d: nat, node: nat, sends: seq<Send>, heard: seq<Option<Frame>>, hop: int)
    requires Heard(net, node, sends, heard)
    requires forall j :: 0 <= j < |sends| ==> sends[j].hop == hop
    ensures Total(d, Arrivals(net, node, sends, heard)) <= |sends| * Weight(d, hop)
  {
    hide Weight, Arrivals, Total;
    var flight := Arrivals(net, node, sends, heard);
    forall m | m in flight ensures m.frame.hop == hop { ArrivalHops(net, node, sends, heard, m); }
    TotalUniform(d, flight, hop);
    TimesMonotone(|flight|, |sends|, Weight(d, hop));
  }

  /** Every line a node sends carries one hop less, at least one, and there are no more of
      them than the node has sessions. */
  lemma RelayedBounded(items: Items, f: Frame, via: Session, sessions: seq<Session>, maxAgeSeconds: int, clock: int)
    ensures var sends := Relayed(items, f, via, sessions, maxAgeSeconds, clock);
            && |sends| <= |sessions|
            && (sends != [] ==> f.hop > 1)
            && forall j :: 0 <= j < |sends| ==>
                 sends[j].hop == f.hop - 1 >= 1 && sends[j].session in sessions && sends[j].session != via
  {
    hide Sends;
    SendsBounded(f, via, sessions);
  }

  lemma ArrivalsLighter(net: Net, s: State, e: Event, d: nat)
    requires Enabled(net, s, e) && e.Deliver? && DegreeAtMost(net, d)
    ensures var m := s.flight[e.i];
            Total(d, Arrivals(net, m.node, SendsOf(net, s, m, e.clock), e.heard)) < Weight(d, m.frame.hop)
  {
    hide Total, Arrivals, Relayed;
    var m := s.flight[e.i];
    var hop := m.frame.hop;
    var sends := SendsOf(net, s, m, e.clock);
    RelayedBounded(ItemsOf(s.caches, m.node), m.frame, m.via, SessionsOf(net, m.node), net.maxAgeSeconds, e.clock);
    assert |sends| <= d;
    TotalArrivals(net, d, m.node, sends, e.heard, hop - 1);
    if hop > 1 {
      TimesMonotone(|sends|, d, Weight(d, hop - 1));
    }
  }

  lemma TimesMonotone(a: nat, b: nat, c: nat)
    requires a <= b
    ensures a * c <= b * c
  {
  }

  /** Every delivery makes the total strictly smaller; a prune pass leaves it alone. */
  lemma DeliveryDecreases(net: Net, s: State, e: Event, d: nat)
    requires Enabled(net, s, e) && DegreeAtMost(net, d)
    ensures e.Deliver? ==> Total(d, Step(net, s, e).flight) < Total(d, s.flight)
    ensures e.Forget? ==> Step(net, s, e).flight == s.flight
  {
    hide Weight, Total, Arrivals, Relayed;
    if e.Deliver? {
      var m := s.flight[e.i];
      var before, after := s.flight[..e.i], s.flight[e.i + 1..];
      var more := Arrivals(net, m.node, SendsOf(net, s, m, e.clock), e.heard);
      ArrivalsLighter(net, s, e, d);
      TotalConcat(d, before + after, more);
      TotalConcat(d, before, after);
      TotalConcat(d, before, [m] + after);
      TotalConcat(d, [m], after);
      TotalOne(d, m);
      assert s.flight == before + ([m] + after);
    }
  }

  lemma TotalOne(d: nat, m: Message)
    ensures Total(d, [m]) == Weight(d, m.frame.hop)
  {
    assert [m][..0] == [];
  }

  function Deliveries(events: seq<Event>): (n: nat) {
    if events == [] then 0 else (if events[0].Deliver? then 1 else 0) + Deliveries(events[1..])
  }

  /** Flooding terminates: however lines are ordered or lost and caches pruned, no run from s
      holds more deliveries than the total weight of what is in flight at the start. */
  lemma {:induction false} FloodTerminates(net: Net, s: State, events: seq<Event>, d: nat)
    requires Runs(net, s, events) && DegreeAtMost(net, d)
    ensures Deliveries(events) + Total(d, After(net, s, events).flight) <= Total(d, s.flight)
    decreases |events|
  {
    hide Total, Step, Enabled;
    if events != [] {
      DeliveryDecreases(net, s, events[0], d);
      FloodTerminates(net, Step(net, s, events[0]), events[1..], d);
    }
  }

  // ---------------------------------------------------------------- hops

  /** In flight is only what was there at the start or carries a hop between one and top. */
  ghost predicate HopsOk(start: seq<Message>, flight: seq<Message>, top: int) {
    forall m :: m in flight ==> m in start || 1 <= m.frame.hop <= top
  }

  lemma StepHops(net: Net, s: State, e: Event, start: seq<Message>, top: int)
    requires Enabled(net, s, e) && HopsOk(start, s.flight, top)
    requires forall m :: m in start ==> m.frame.hop <= top
    ensures HopsOk(start, Step(net, s, e).flight, top)
  {
    hide Arrivals, Relayed;
    if e.Deliver? {
      var d := s.flight[e.i];
      var sends := SendsOf(net, s, d, e.clock);
      RelayedBounded(ItemsOf(s.caches, d.node), d.frame, d.via, SessionsOf(net, d.node), net.maxAgeSeconds, e.clock);
      forall m | m in Arrivals(net, d.node, sends, e.heard) ensures 1 <= m.frame.hop <= top {
        ArrivalHops(net, d.node, sends, e.heard, m);
      }
    }
  }

  /** No relayed frame ever has a hop below one, nor above what the flood started with. */
  lemma {:induction false} FloodHops(net: Net, s: State, events: seq<Event>, start: seq<Message>, top: int)
    requires Runs(net, s, events) && HopsOk(start, s.flight, top)
    requires forall m :: m in start ==> m.frame.hop <= top
    ensures HopsOk(start, After(net, s, events).flight, top)
    decreases |events|
  {
    hide HopsOk, Step, Enabled;
    if events != [] {
      StepHops(net, s, events[0], start, top);
      FloodHops(net, Step(net, s, events[0]), events[1..], start, top);
    }
  }

  // ---------------------------------------------------------------- once per key

  /** When a node saw a key, by the log alone: marks remember it, a prune more than the TTL
      later forgets it. */
  function Seen(base: map<nat, Items>, ttl: int64, log: seq<Entry>, node: nat, key: string): (t: Option<int>) {
    if log == [] then
      if key in ItemsOf(base, node) then Some(ItemsOf(base, node)[key]) else None
    else
      var rest := Seen(base, ttl, log[..|log| - 1], node, key);
      match log[|log| - 1]
      case Mark(n, k, at) => if n == node && k == key then Some(at) else rest
      case Prune(n, at) => if n == node && rest.Some? && Sub(at, rest.value) > ttl then None else rest
  }

  /** Keys are only marked while they are not remembered. */
  ghost predicate LogOk(base: map<nat, Items>, ttl: int64, log: seq<Entry>) {
    forall j :: 0 <= j < |log| && log[j].Mark? ==> Seen(base, ttl, log[..j], log[j].node, log[j].key) == None
  }

  /** The caches hold exactly what the log remembers. */
  ghost predicate CachesOk(base: map<nat, Items>, ttl: int64, s: State) {
    forall n, k :: Seen(base, ttl, s.log, n, k)
                   == if k in ItemsOf(s.caches, n) then Some(ItemsOf(s.caches, n)[k]) else None
  }

  lemma SeenSnoc(base: map<nat, Items>, ttl: int64, log: seq<Entry>, e: Entry)
    ensures forall n, k :: Seen(base, ttl, log + [e], n, k)
              == var rest := Seen(base, ttl, log, n, k);
                 match e
                 case Mark(m, key, at) => if m == n && key == k then Some(at) else rest
                 case Prune(m, at) => if m == n && rest.Some? && Sub(at, rest.value) > ttl then None else rest
  {
    assert (log + [e])[..|log|] == log;
  }

  lemma LogSnoc(base: map<nat, Items>, ttl: int64, log: seq<Entry>, e: Entry)
    requires LogOk(base, ttl, log) && (e.Mark? ==> Seen(base, ttl, log, e.node, e.key) == None)
    ensures LogOk(base, ttl, log + [e])
  {
    hide Seen;
    var longer := log + [e];
    forall j | 0 <= j < |longer| && longer[j].Mark?
      ensures Seen(base, ttl, longer[..j], longer[j].node, longer[j].key) == None
    {
      assert longer[..j] == log[..j];
      if j == |log| { assert log[..j] == log; }
    }
  }

  lemma StepOnce(net: Net, base: map<nat, Items>, s: State, e: Event)
    requires Enabled(net, s, e) && LogOk(base, net.ttl, s.log) && CachesOk(base, net.ttl, s)
    ensures LogOk(base, net.ttl, Step(net, s, e).log) && CachesOk(base, net.ttl, Step(net, s, e))
  {
    hide Seen, LogOk, Arrivals, Relayed, Heard, Marks;
    var r := Step(net, s, e);
    if r.log != s.log {
      var entry := r.log[|s.log|];
      assert r.log == s.log + [entry];
      SeenSnoc(base, net.ttl, s.log, entry);
      LogSnoc(base, net.ttl, s.log, entry);
    }
  }

  lemma {:induction false} FloodOnce(net: Net, base: map<nat, Items>, s: State, events: seq<Event>)
    requires Runs(net, s, events) && LogOk(base, net.ttl, s.log) && CachesOk(base, net.ttl, s)
    ensures LogOk(base, net.ttl, After(net, s, events).log) && CachesOk(base, net.ttl, After(net, s, events))
    decreases |events|
  {
    hide Step, Enabled, LogOk, CachesOk;
    if events != [] {
      StepOnce(net, base, s, events[0]);
      FloodOnce(net, base, Step(net, s, events[0]), events[1..]);
    }
  }

  /** A prune pass between the two places that forgets a key marked at time at. */
  ghost predicate ForgottenBetween(log: seq<Entry>, i: nat, j: nat, node: nat, at: int, ttl: int64) {
    exists m :: i < m < j && m < |log| && log[m].Prune? && log[m].node == node && Sub(log[m].at, at) > ttl
  }

  lemma {:induction false} RememberedSince(base: map<nat, Items>, ttl: int64, log: seq<Entry>, i: nat, j: nat)
    requires LogOk(base, ttl, log) && i < j <= |log| && log[i].Mark?
    ensures ForgottenBetween(log, i, j, log[i].node, log[i].at, ttl)
            || Seen(base, ttl, log[..j], log[i].node, log[i].key) == Some(log[i].at)
  {
    var n := j - 1;
    assert log[..j] == log[..n] + [log[n]];
    SeenSnoc(base, ttl, log[..n], log[n]);
    if i < n {
      RememberedSince(base, ttl, log, i, n);
    }
  }

  /** Relaying takes a mark: a delivery that sends anything logs its node and key. */
  lemma RelayIsMarked(net: Net, s: State, e: Event)
    requires Enabled(net, s, e) && e.Deliver?
    ensures var m := s.flight[e.i];
            SendsOf(net, s, m, e.clock) != [] ==>
              Step(net, s, e).log == s.log + [Mark(m.node, m.frame.key, e.now)]
  {
    hide Arrivals, Heard, Sends;
  }

  /** Whatever the caches hold at the start, a node relays a given key at most once until a
      prune more than the TTL after that time: two marks of a key have such a prune between. */
  lemma RelayedOnce(net: Net, s: State, events: seq<Event>, i: nat, j: nat)
    requires s.log == [] && Runs(net, s, events)
    requires i < j < |After(net, s, events).log|
    requires var log := After(net, s, events).log;
             log[i].Mark? && log[j].Mark? && log[i].node == log[j].node && log[i].key == log[j].key
    ensures var log := After(net, s, events).log;
            ForgottenBetween(log, i, j, log[i].node, log[i].at, net.ttl)
  {
    hide ForgottenBetween;
    FloodOnce(net, s.caches, s, events);
    RememberedSince(s.caches, net.ttl, After(net, s, events).log, i, j);
  }
}
