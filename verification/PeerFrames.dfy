/** Handling one peer frame: the time-bounded dedupe cache and the frames sent on. */
module PeerFrames {
  import opened Common

  datatype Kind = PC92 | PC26 | PC11 | PC61 | PC23 | PC73 | PC93 | Other

  /** A received frame: its dedupe key as the key functions print it, whether its payload
      parses, and the spot time for a spot frame. */
  datatype Frame = Frame(kind: Kind, hop: int, key: string, parses: bool, spotTime: int)

  /** A connected peer session. */
  datatype Session = Session(id: nat, pc9x: bool)

  /** A line handed to a session: the frame kind and the hop count it carries. */
  datatype Send = Send(session: Session, kind: Kind, hop: int)

  type Items = map<string, int>

  // ---------------------------------------------------------------- dedupe cache

  /** markSeen answers true: a non-empty key the cache does not hold. */
  predicate IsNew(items: Items, key: string) {
    key != "" && key !in items
  }

  function Marked(items: Items, key: string, now: int): (r: Items) {
    if IsNew(items, key) then items[key := now] else items
  }

  function Pruned(items: Items, ttl: int64, now: int): (r: Items) {
    map k | k in items && Sub(now, items[k]) <= ttl :: items[k]
  }

  class DedupeCache {
    var items: Items
    const ttl: int64

    constructor (ttl: int64)
      ensures items == map[] && this.ttl == ttl
    {
      items := map[];
      this.ttl := ttl;
    }

    method MarkSeen(key: string, now: int) returns (isNew: bool)
      modifies this
      ensures isNew == IsNew(old(items), key) && items == Marked(old(items), key, now)
    {
      if key == "" { return false; }
      if key in items { return false; }
      items := items[key := now];
      return true;
    }

    /** The keys are visited in any order, each deleted once it is past the TTL. */
    method Prune(now: int)
      modifies this
      ensures items == Pruned(old(items), ttl, now)
    {
      if |items| == 0 { return; }
      var rest := items.Keys;
      while rest != {}
        invariant rest <= old(items).Keys
        invariant items.Keys <= old(items).Keys && forall k :: k in items ==> items[k] == old(items)[k]
        invariant forall k :: k in rest ==> k in items
        invariant forall k :: k in old(items) && k !in rest ==> (k in items <==> Sub(now, old(items)[k]) <= ttl)
        decreases |rest|
      {
        var k :| k in rest;
        if Sub(now, items[k]) > ttl { items := items - {k}; }
        rest := rest - {k};
      }
    }
  }

  // ---------------------------------------------------------------- one frame

  /** broadcastSpot's age test. */
  predicate Stale(maxAgeSeconds: int, clock: int, spotTime: int) {
    maxAgeSeconds > 0 && clock - spotTime > maxAgeSeconds * 1_000_000_000
  }

  /** HandleFrame reaches the dedupe cache with this frame. */
  predicate Marks(f: Frame) {
    match f.kind
    case PC92 => f.hop > 1
    case PC26 | PC11 | PC61 => f.parses && f.hop > 1
    case PC23 | PC73 | PC93 => f.parses
    case Other => false
  }

  /** The frame goes on to other peers once its key is new. */
  predicate Relays(f: Frame, maxAgeSeconds: int, clock: int) {
    match f.kind
    case PC92 => f.hop > 1
    case PC26 => f.parses && f.hop > 1
    case PC11 | PC61 => f.parses && f.hop > 1 && !Stale(maxAgeSeconds, clock, f.spotTime)
    case PC23 | PC73 | PC93 | Other => false
  }

  /** Who gets the relayed frame: everyone but its source, PC92 and PC26 only pc9x peers. */
  predicate Reaches(f: Frame, via: Session, s: Session) {
    s != via && (f.kind.PC92? || f.kind.PC26? ==> s.pc9x)
  }

  /** Spots are rewritten for the receiver's protocol, the rest go out as they came. */
  function SentKind(f: Frame, s: Session): (k: Kind) {
    if f.kind.PC11? || f.kind.PC61? then if s.pc9x then PC61 else PC11 else f.kind
  }

  function Sends(f: Frame, via: Session, sessions: seq<Session>): (r: seq<Send>) {
    if sessions == [] then [] else
      var n := |sessions| - 1;
      Sends(f, via, sessions[..n])
      + if Reaches(f, via, sessions[n]) then [Send(sessions[n], SentKind(f, sessions[n]), f.hop - 1)] else []
  }

  /** What handling a frame sends, the cache standing at items. */
  function Relayed(items: Items, f: Frame, via: Session, sessions: seq<Session>, maxAgeSeconds: int, clock: int)
    : (r: seq<Send>)
  {
    if Marks(f) && IsNew(items, f.key) && Relays(f, maxAgeSeconds, clock) then Sends(f, via, sessions) else []
  }

  function Handled(items: Items, f: Frame, now: int): (r: Items) {
    if Marks(f) then Marked(items, f.key, now) else items
  }

  /** No frame is sent back to its source, each carries one hop less, and there are at most as
      many as there are sessions. */
  lemma {:induction false} SendsBounded(f: Frame, via: Session, sessions: seq<Session>)
    ensures |Sends(f, via, sessions)| <= |sessions|
    ensures forall i :: 0 <= i < |Sends(f, via, sessions)| ==>
              var s := Sends(f, via, sessions)[i];
              s.session in sessions && s.session != via && s.hop == f.hop - 1
  {
    if sessions != [] { SendsBounded(f, via, sessions[..|sessions| - 1]); }
  }

  // ---------------------------------------------------------------- who gets what

  /** How many lines go to a session. */
  function LinesTo(sent: seq<Send>, s: Session): (n: nat) {
    if sent == [] then 0 else
      LinesTo(sent[..|sent| - 1], s) + if sent[|sent| - 1].session == s then 1 else 0
  }

  ghost predicate DistinctSessions(sessions: seq<Session>) {
    forall i, j :: 0 <= i < j < |sessions| ==> sessions[i] != sessions[j]
  }

  /** A frame goes on: its key is new, a hop is left, and it is a PC92 or a spot that parses; a PC11
      or PC61 spot must also be no older than the limit, if there is one. */
  predicate GoesOn(items: Items, f: Frame, maxAgeSeconds: int, clock: int) {
    && f.key != "" && f.key !in items && f.hop > 1
    && match f.kind
       case PC92 => true
       case PC26 => f.parses
       case PC11 | PC61 => f.parses && (maxAgeSeconds <= 0 || clock - f.spotTime <= maxAgeSeconds * 1_000_000_000)
       case PC23 | PC73 | PC93 | Other => false
  }

  /** A session a frame that goes on must reach: not the one it came from, and a pc9x one unless the
      frame is a PC11 or PC61 spot. */
  predicate MustReach(f: Frame, via: Session, s: Session) {
    s != via && (s.pc9x || f.kind == PC11 || f.kind == PC61)
  }

  /** The kind of line a session gets: spots in the protocol it speaks, the rest as they came. */
  predicate RightLine(f: Frame, line: Send) {
    line.hop == f.hop - 1
    && match f.kind
       case PC11 | PC61 => line.kind == if line.session.pc9x then PC61 else PC11
       case _ => line.kind == f.kind
  }

  lemma LinesSnoc(sent: seq<Send>, line: Send, s: Session)
    ensures LinesTo(sent + [line], s) == LinesTo(sent, s) + if line.session == s then 1 else 0
  {
    assert (sent + [line])[..|sent|] == sent;
  }

  lemma ReachesIff(f: Frame, via: Session, s: Session)
    requires f.kind == PC92 || f.kind == PC26 || f.kind == PC11 || f.kind == PC61
    ensures Reaches(f, via, s) <==> MustReach(f, via, s)
    ensures RightLine(f, Send(s, SentKind(f, s), f.hop - 1))
  {
  }

  lemma {:induction false} LinesExact(f: Frame, via: Session, sessions: seq<Session>, s: Session)
    requires DistinctSessions(sessions)
    requires f.kind == PC92 || f.kind == PC26 || f.kind == PC11 || f.kind == PC61
    ensures LinesTo(Sends(f, via, sessions), s) == if s in sessions && MustReach(f, via, s) then 1 else 0
  {
    hide LinesTo, MustReach, Reaches, SentKind;
    if sessions == [] {
      NoLines(s);
    } else {
      var n := |sessions| - 1;
      var less, last := sessions[..n], sessions[n];
      assert sessions == less + [last] && last !in less;
      LinesExact(f, via, less, s);
      ReachesIff(f, via, last);
      var before := Sends(f, via, less);
      LinesSnoc(before, Send(last, SentKind(f, last), f.hop - 1), s);
      assert before + [] == before;
    }
  }

  lemma NoLines(s: Session)
    ensures LinesTo([], s) == 0
  {
  }

  lemma {:induction false} LinesRight(f: Frame, via: Session, sessions: seq<Session>)
    requires f.kind == PC92 || f.kind == PC26 || f.kind == PC11 || f.kind == PC61
    ensures forall i :: 0 <= i < |Sends(f, via, sessions)| ==> RightLine(f, Sends(f, via, sessions)[i])
  {
    hide RightLine, Reaches, SentKind;
    if sessions != [] {
      var n := |sessions| - 1;
      LinesRight(f, via, sessions[..n]);
      ReachesIff(f, via, sessions[n]);
    }
  }

  /** Main relay result: a frame that goes on sends exactly one line, of the right kind and with one
      hop less, to each session it must reach and none to any other; no other frame sends any. */
  lemma RecipientsExact(items: Items, f: Frame, via: Session, sessions: seq<Session>, maxAgeSeconds: int, clock: int,
                        s: Session)
    requires DistinctSessions(sessions)
    ensures var sent := Relayed(items, f, via, sessions, maxAgeSeconds, clock);
            && LinesTo(sent, s) == (if GoesOn(items, f, maxAgeSeconds, clock) && s in sessions && MustReach(f, via, s)
                                    then 1 else 0)
            && forall i :: 0 <= i < |sent| ==> RightLine(f, sent[i])
  {
    hide Sends, RightLine, MustReach;
    if GoesOn(items, f, maxAgeSeconds, clock) {
      LinesExact(f, via, sessions, s);
      LinesRight(f, via, sessions);
    }
  }

  /** The key of a frame is marked exactly when it is new and the frame is a PC92 or a spot that
      parses with a hop left, or a bulletin or talk that parses. */
  lemma MarkedExact(items: Items, f: Frame, now: int)
    ensures var marks := f.key != "" && f.key !in items
                         && ((f.kind == PC92 && f.hop > 1)
                             || ((f.kind == PC26 || f.kind == PC11 || f.kind == PC61) && f.parses && f.hop > 1)
                             || ((f.kind == PC23 || f.kind == PC73 || f.kind == PC93) && f.parses));
            Handled(items, f, now) == if marks then items[f.key := now] else items
  {
  }

  class Manager {
    const cache: DedupeCache
    var sessions: seq<Session>
    const maxAgeSeconds: int

    constructor (ttl: int64, maxAgeSeconds: int)
      ensures sessions == [] && fresh(cache) && cache.items == map[] && cache.ttl == ttl
      ensures this.maxAgeSeconds == maxAgeSeconds
    {
      cache := new DedupeCache(ttl);
      sessions := [];
      this.maxAgeSeconds := maxAgeSeconds;
    }

    method HandleFrame(f: Frame, via: Session, now: int, clock: int) returns (sent: seq<Send>)
      modifies cache
      ensures cache.items == Handled(old(cache.items), f, now)
      ensures sent == Relayed(old(cache.items), f, via, sessions, maxAgeSeconds, clock)
      ensures DistinctSessions(sessions) ==> forall s ::
                LinesTo(sent, s) == if GoesOn(old(cache.items), f, maxAgeSeconds, clock) && s in sessions
                                       && MustReach(f, via, s) then 1 else 0
    {
      hide Sends, LinesTo, MustReach, GoesOn;
      if DistinctSessions(sessions) {
        forall s
          ensures LinesTo(Relayed(cache.items, f, via, sessions, maxAgeSeconds, clock), s)
                  == if GoesOn(cache.items, f, maxAgeSeconds, clock) && s in sessions && MustReach(f, via, s)
                     then 1 else 0
        {
          RecipientsExact(cache.items, f, via, sessions, maxAgeSeconds, clock, s);
        }
      }
      sent := [];
      match f.kind
      case PC92 =>
        if f.hop > 1 {
          var isNew := cache.MarkSeen(f.key, now);
          if isNew { sent := ForwardFrame(f, via); }
        }
      case PC26 | PC11 | PC61 =>
        if !f.parses { return; }
        if f.hop > 1 {
          var isNew := cache.MarkSeen(f.key, now);
          if isNew {
            if f.kind == PC26 {
              sent := ForwardFrame(f, via);
            } else {
              sent := BroadcastSpot(f, via, clock);
            }
          }
        }
      case PC23 | PC73 | PC93 =>
        if f.parses { var _ := cache.MarkSeen(f.key, now); }
      case Other =>
    }

    method ForwardFrame(f: Frame, via: Session) returns (sent: seq<Send>)
      requires f.kind.PC92? || f.kind.PC26?
      ensures sent == Sends(f, via, sessions)
    {
      sent := [];
      for i := 0 to |sessions|
        invariant sent == Sends(f, via, sessions[..i])
      {
        var s := sessions[i];
        assert sessions[..i + 1][..i] == sessions[..i];
        if s == via { continue; }
        if !s.pc9x { continue; }
        sent := sent + [Send(s, f.kind, f.hop - 1)];
      }
      assert sessions[..|sessions|] == sessions;
    }

    method BroadcastSpot(f: Frame, via: Session, clock: int) returns (sent: seq<Send>)
      requires f.kind.PC11? || f.kind.PC61?
      ensures sent == if Stale(maxAgeSeconds, clock, f.spotTime) then [] else Sends(f, via, sessions)
    {
      sent := [];
      if maxAgeSeconds > 0 {
        if clock - f.spotTime > maxAgeSeconds * 1_000_000_000 { return; }
      }
      for i := 0 to |sessions|
        invariant sent == Sends(f, via, sessions[..i])
      {
        var s := sessions[i];
        assert sessions[..i + 1][..i] == sessions[..i];
        if s == via { continue; }
        if s.pc9x {
          sent := sent + [Send(s, PC61, f.hop - 1)];
        } else {
          sent := sent + [Send(s, PC11, f.hop - 1)];
        }
      }
      assert sessions[..|sessions|] == sessions;
    }
  }
}
