/** Whole runs of the grid store's writer: soundness at every point, and each
    record as the merge of its own history. */
module GridRuns {
  import opened Common
  import opened Pebble
  import opened GridRecord
  import opened GridKeys
  import opened GridStore

  /** A write request as the writer loop takes it from its queue. */
  datatype Request =
    | UpsertBatch(ins: seq<Incoming>)
    | ClearKnown
    | Purge(cutoff: Option<int64>)

  function Step(s: State, q: Request): (r: State) {
    match q
    case UpsertBatch(ins) => Upserted(s, ins)
    case ClearKnown => Cleared(s)
    case Purge(cutoff) => Purged(s, cutoff)
  }

  function Run(s: State, qs: seq<Request>): (r: State) {
    if qs == [] then s else Step(Run(s, qs[..|qs| - 1]), qs[|qs| - 1])
  }

  /** The request is one the store tolerates in this state. */
  predicate SafeRequest(s: State, q: Request) {
    q.UpsertBatch? ==> AllReadable(s.db, q.ins) && BatchSafe(s.db, q.ins)
  }

  predicate AlwaysSafe(s: State, qs: seq<Request>) {
    forall i :: 0 <= i < |qs| ==> SafeRequest(Run(s, qs[..i]), qs[i])
  }

  ghost predicate AlwaysSound(s: State, qs: seq<Request>) {
    forall i :: 0 <= i <= |qs| ==> Sound(Run(s, qs[..i]))
  }

  lemma StepSoundIff(s: State, q: Request)
    requires Sound(s)
    ensures Sound(Step(s, q)) <==> SafeRequest(s, q)
  {
    match q
    case UpsertBatch(ins) => UpsertSoundIff(s, ins);
    case ClearKnown => ClearedExact(s, [0]);
    case Purge(cutoff) => PurgeExact(s, cutoff, [0]);
  }

  lemma RunStep(s: State, qs: seq<Request>, i: nat)
    requires i < |qs|
    ensures Run(s, qs[..i + 1]) == Step(Run(s, qs[..i]), qs[i])
  {
    assert qs[..i + 1][..i] == qs[..i];
  }

  lemma {:induction false} SafeKeepsSound(s: State, qs: seq<Request>, i: nat)
    requires Sound(s) && AlwaysSafe(s, qs) && i <= |qs|
    ensures Sound(Run(s, qs[..i]))
    decreases i
  {
    if i > 0 {
      SafeKeepsSound(s, qs, i - 1);
      RunStep(s, qs, i - 1);
      StepSoundIff(Run(s, qs[..i - 1]), qs[i - 1]);
    }
  }

  /** In every run from a sound store, index and both counts are exact at every
      point if and only if every batch was safe when it was applied. */
  lemma RunSoundIff(s: State, qs: seq<Request>)
    requires Sound(s)
    ensures AlwaysSound(s, qs) <==> AlwaysSafe(s, qs)
  {
    if AlwaysSafe(s, qs) {
      forall i | 0 <= i <= |qs| ensures Sound(Run(s, qs[..i])) { SafeKeepsSound(s, qs, i); }
    }
    if AlwaysSound(s, qs) {
      forall i | 0 <= i < |qs| ensures SafeRequest(Run(s, qs[..i]), qs[i]) {
        assert Sound(Run(s, qs[..i])) && Sound(Run(s, qs[..i + 1]));
        RunStep(s, qs, i);
        StepSoundIff(Run(s, qs[..i]), qs[i]);
      }
    }
  }

  // ---------------------------------------------------------------- the intended use

  /** A batch with distinct calls and positive instants. */
  predicate Plain(q: Request) {
    q.UpsertBatch? ==>
      && (forall i, j :: 0 <= i < j < |q.ins| ==> q.ins[i].call != q.ins[j].call)
      && (forall i :: 0 <= i < |q.ins| ==> q.ins[i].value.updatedAt > 0)
  }

  /** Every stored instant is positive. */
  ghost predicate PositiveInstants(s: State) {
    forall c: bytes :: c != [] && Present(s.db, c) && Readable(s.db, c) ==> Value(s.db, c).updatedAt > 0
  }

  lemma {:induction false} DistinctOccurrences(ins: seq<Incoming>, c: bytes)
    requires forall i, j :: 0 <= i < j < |ins| ==> ins[i].call != ins[j].call
    requires forall i :: 0 <= i < |ins| ==> ins[i].value.updatedAt > 0
    ensures |Occurrences(ins, c)| <= 1
    ensures forall i :: 0 <= i < |Occurrences(ins, c)| ==> Occurrences(ins, c)[i].updatedAt > 0
  {
    if ins != [] {
      var n := |ins| - 1;
      DistinctOccurrences(ins[..n], c);
      OccurrencesIff(ins[..n], c);
    }
  }

  lemma PlainRowSafe(ins: seq<Incoming>, c: bytes, u: int64)
    requires Plain(UpsertBatch(ins)) && u > 0
    ensures SafeRow(u, Occurrences(ins, c))
  {
    DistinctOccurrences(ins, c);
  }

  lemma PlainIsSafe(s: State, q: Request)
    requires Sound(s) && PositiveInstants(s) && Plain(q)
    ensures SafeRequest(s, q)
  {
    if q.UpsertBatch? {
      ConsistentReadable(s.db, q.ins);
      PlainBatchSafe(s, q.ins);
    }
  }

  lemma PlainBatchSafe(s: State, ins: seq<Incoming>)
    requires PositiveInstants(s) && AllReadable(s.db, ins) && Plain(UpsertBatch(ins))
    ensures BatchSafe(s.db, ins)
  {
    forall i | 0 <= i < |ins|
      ensures var c := ins[i].call;
              c != [] && Present(s.db, c) ==> SafeRow(Value(s.db, c).updatedAt, Occurrences(ins, c))
    {
      var c := ins[i].call;
      if c != [] && Present(s.db, c) { PlainRowSafe(ins, c, Value(s.db, c).updatedAt); }
    }
  }

  lemma PlainKeepsPositive(s: State, q: Request)
    requires Sound(s) && PositiveInstants(s) && Plain(q)
    ensures PositiveInstants(Step(s, q))
  {
    var r := Step(s, q);
    forall c: bytes | c != [] && Present(r.db, c) && Readable(r.db, c) ensures Value(r.db, c).updatedAt > 0 {
      PlainValuePositive(s, q, c);
    }
  }

  lemma PlainValuePositive(s: State, q: Request, c: bytes)
    requires Sound(s) && PositiveInstants(s) && Plain(q) && c != []
    requires Present(Step(s, q).db, c) && Readable(Step(s, q).db, c)
    ensures Value(Step(s, q).db, c).updatedAt > 0
  {
    match q
    case UpsertBatch(ins) =>
      DistinctOccurrences(ins, c);
      UpsertedValue(s, ins, c);
    case ClearKnown => ClearedExact(s, c);
    case Purge(cutoff) => PurgeExact(s, cutoff, c);
  }

  /** A call's value after a batch: unchanged, or merged with its last occurrence. */
  lemma UpsertedValue(s: State, ins: seq<Incoming>, c: bytes)
    requires Sound(s) && c != []
    ensures RowOk(s.db, c)
    ensures var r := Upserted(s, ins).db;
            var occ := Occurrences(ins, c);
            if occ == [] then SameRow(r, s.db, c)
            else Present(r, c) && Readable(r, c) && Value(r, c) == Stored(Merged(s.db, c, occ[|occ| - 1]))
  {
    hide Decode, Encoded, Upserted, Stored, InIndex;
    UpsertedRow(s, ins, c);
    var occ := Occurrences(ins, c);
    if occ != [] {
      RowAfterOk(s.db, Upserted(s, ins).db, c, occ);
    }
  }

  lemma {:induction false} PlainRun(s: State, qs: seq<Request>, i: nat)
    requires Sound(s) && PositiveInstants(s) && i <= |qs|
    requires forall j :: 0 <= j < |qs| ==> Plain(qs[j])
    ensures Sound(Run(s, qs[..i])) && PositiveInstants(Run(s, qs[..i]))
    decreases i
  {
    if i > 0 {
      PlainRun(s, qs, i - 1);
      RunStep(s, qs, i - 1);
      var t := Run(s, qs[..i - 1]);
      PlainIsSafe(t, qs[i - 1]);
      StepSoundIff(t, qs[i - 1]);
      PlainKeepsPositive(t, qs[i - 1]);
    }
  }

  /** Runs of distinct-call, positive-instant batches with any clears and purges
      between them stay sound from the empty store. */
  lemma PlainRunsSound(qs: seq<Request>)
    requires forall j :: 0 <= j < |qs| ==> Plain(qs[j])
    ensures AlwaysSound(EMPTY, qs)
  {
    EmptySound();
    assert PositiveInstants(EMPTY) by {
      forall c: bytes ensures !Present(EMPTY.db, c) { FamiliesDisjoint(0, c, c); }
    }
    forall i | 0 <= i <= |qs| ensures Sound(Run(EMPTY, qs[..i])) { PlainRun(EMPTY, qs, i); }
  }

  // ---------------------------------------------------------------- where it fails

  /** One batch naming a new call twice leaves one record and a count of two. */
  lemma RepeatedNewCallBreaksCount(v: RecordValue, w: RecordValue)
    ensures var s := Run(EMPTY, [UpsertBatch([Incoming([0x41], v), Incoming([0x41], w)])]);
            |Calls(s.db)| == 1 && s.count == 2 && !Sound(s)
  {
    var ins := [Incoming([0x41], v), Incoming([0x41], w)];
    EmptySound();
    FamiliesDisjoint(0, [0x41], []);
    UpsertCalls(EMPTY, ins);
    TwiceNew(EMPTY.db, [0x41], v, w);
    hide Upserted, Calls, NewCalls, CountDelta;
    RunOne(EMPTY, UpsertBatch(ins));
  }

  lemma TwiceNew(base: DB, c: bytes, v: RecordValue, w: RecordValue)
    requires c != [] && !Present(base, c)
    ensures var ins := [Incoming(c, v), Incoming(c, w)];
            NewCalls(base, ins) == {c} && CountDelta(base, ins) == 2
  {
    var ins := [Incoming(c, v), Incoming(c, w)];
    assert ins[..1] == [Incoming(c, v)] && ins[..1][..0] == [];
    assert NewCalls(base, ins[..1][..0]) == {} && CountDelta(base, ins[..1][..0]) == 0;
    assert NewCalls(base, ins[..1]) == {c} && CountDelta(base, ins[..1]) == 1;
  }

  lemma RunOne(s: State, q: Request)
    ensures Run(s, [q]) == Step(s, q)
  {
    hide Step;
    assert [q][..0] == [];
  }

  lemma RunTwo(s: State, p: Request, q: Request)
    ensures Run(s, [p, q]) == Step(Step(s, p), q)
  {
    hide Step;
    RunOne(s, p);
    assert [p, q][..1] == [p];
  }

  /** A record stamped at the Unix epoch keeps that index entry when it is updated. */
  lemma EpochBreaksIndex(s: State, c: bytes, v: RecordValue)
    requires Sound(s) && c != [] && Present(s.db, c) && Readable(s.db, c)
    requires Value(s.db, c).updatedAt == 0 && v.updatedAt > 0
    ensures var r := Upserted(s, [Incoming(c, v)]);
            UpdatedKey(0, c) in r.db && UpdatedKey(v.updatedAt, c) in r.db && !Sound(r)
  {
    var ins := [Incoming(c, v)];
    SingleOccurrence(c, v);
    UpsertedRow(s, ins, c);
    assert InIndex(Some(0), [v], 0) && InIndex(Some(0), [v], v.updatedAt) by { assert [v][0] == v; }
    assert !RowOk(Upserted(s, ins).db, c);
  }

  lemma SingleOccurrence(c: bytes, v: RecordValue)
    ensures Occurrences([Incoming(c, v)], c) == [v]
  {
    var ins := [Incoming(c, v)];
    assert ins[..0] == [];
    assert Occurrences([], c) == [];
  }

  /** Such a store is reached: one request at the epoch, one after it, and the call is listed at
      both instants. */
  lemma EpochRunBreaksIndex(v: RecordValue, w: RecordValue)
    requires v.updatedAt == 0 && w.updatedAt > 0
    ensures var c: bytes := [0x41];
            var s := Run(EMPTY, [UpsertBatch([Incoming(c, v)]), UpsertBatch([Incoming(c, w)])]);
            UpdatedKey(0, c) in s.db && UpdatedKey(w.updatedAt, c) in s.db && !Sound(s)
  {
    var c: bytes := [0x41];
    var first := EpochStored(v);
    EpochBreaksIndex(first, c, w);
    hide Upserted, Sound, UpdatedKey;
    RunTwo(EMPTY, UpsertBatch([Incoming(c, v)]), UpsertBatch([Incoming(c, w)]));
  }

  lemma EpochStored(v: RecordValue) returns (s: State)
    requires v.updatedAt == 0
    ensures s == Upserted(EMPTY, [Incoming([0x41], v)]) && Sound(s)
    ensures Present(s.db, [0x41]) && Readable(s.db, [0x41]) && Value(s.db, [0x41]).updatedAt == 0
  {
    var c: bytes := [0x41];
    var ins := [Incoming(c, v)];
    s := Upserted(EMPTY, ins);
    EmptySound();
    FamiliesDisjoint(0, c, []);
    UpsertSoundIff(EMPTY, ins);
    SingleOccurrence(c, v);
    UpsertedRow(EMPTY, ins, c);
    DecodeEncoded(v);
  }

  // ---------------------------------------------------------------- histories

  function ClearAll(h: seq<RecordValue>): (r: seq<RecordValue>)
    ensures |r| == |h|
  {
    seq(|h|, i requires 0 <= i < |h| => h[i].(isKnown := false))
  }

  function NextHistory(h: seq<RecordValue>, q: Request, c: bytes): (r: seq<RecordValue>) {
    match q
    case UpsertBatch(ins) => Extended(h, Occurrences(ins, c))
    case ClearKnown => ClearAll(h)
    case Purge(cutoff) => AfterPurge(h, cutoff)
  }

  /** The values that made one call's record: since it was last purged, the last
      occurrence of the call in each batch, with later clears applied. */
  function History(qs: seq<Request>, c: bytes): (h: seq<RecordValue>) {
    if qs == [] then [] else NextHistory(History(qs[..|qs| - 1], c), qs[|qs| - 1], c)
  }

  lemma {:induction false} MergeAllCleared(h: seq<RecordValue>)
    requires h != []
    ensures MergeAll(ClearAll(h)) == MergeAll(h).(isKnown := false)
    decreases |h|
  {
    var n := |h| - 1;
    if n > 0 {
      assert ClearAll(h)[..n] == ClearAll(h[..n]);
      MergeAllCleared(h[..n]);
    }
  }

  /** The values a request carries survive the codec. */
  predicate Storable(q: Request) {
    q.UpsertBatch? ==> forall i :: 0 <= i < |q.ins| ==> Canonical(q.ins[i].value)
  }

  /** Normalized records are storable when their strings fit 16-bit lengths. */
  lemma ShortRecordsStorable(recs: seq<Record>, now: int64)
    requires forall i :: 0 <= i < |recs| ==> ShortStrings(NormalizeRecordValue(recs[i], now))
    ensures Storable(UpsertBatch(Incomings(recs, now)))
  {
    forall i | 0 <= i < |recs| ensures Canonical(Incomings(recs, now)[i].value) {
      NormalizedIsCanonical(recs[i], now);
    }
  }

  lemma {:induction false} OccurrencesCanonical(ins: seq<Incoming>, c: bytes)
    requires forall i :: 0 <= i < |ins| ==> Canonical(ins[i].value)
    ensures forall i :: 0 <= i < |Occurrences(ins, c)| ==> Canonical(Occurrences(ins, c)[i])
  {
    if ins != [] {
      OccurrencesCanonical(ins[..|ins| - 1], c);
    }
  }

  /** The store holds exactly the calls with a history, each with its merge. */
  ghost predicate Explained(db: DB, c: bytes, h: seq<RecordValue>) {
    && Readable(db, c)
    && (Present(db, c) <==> h != [])
    && (h != [] ==> Value(db, c) == MergeAll(h) && Canonical(MergeAll(h)))
  }

  lemma MergedHistory(db: DB, c: bytes, h: seq<RecordValue>, inc: RecordValue)
    requires Explained(db, c, h) && Canonical(inc)
    ensures Merged(db, c, inc) == MergeAll(h + [inc])
    ensures Canonical(MergeAll(h + [inc])) && Stored(MergeAll(h + [inc])) == MergeAll(h + [inc])
  {
    assert (h + [inc])[..|h|] == h;
    if h != [] { MergeKeepsCanonical(MergeAll(h), inc); }
    StoredUnchanged(MergeAll(h + [inc]));
  }

  /** A batch extends the history by the last occurrence. */
  function Extended(h: seq<RecordValue>, occ: seq<RecordValue>): (r: seq<RecordValue>) {
    if occ == [] then h else h + [occ[|occ| - 1]]
  }

  lemma UpsertExplained(s: State, ins: seq<Incoming>, c: bytes, h: seq<RecordValue>)
    requires Sound(s) && c != [] && Explained(s.db, c, h) && Storable(UpsertBatch(ins))
    ensures Explained(Upserted(s, ins).db, c, Extended(h, Occurrences(ins, c)))
  {
    hide Decode, Encoded, Upserted, Stored, Consistent;
    var occ := Occurrences(ins, c);
    UpsertedValue(s, ins, c);
    if occ != [] {
      OccurrencesCanonical(ins, c);
      MergedHistory(s.db, c, h, occ[|occ| - 1]);
    }
  }

  lemma ClearExplained(s: State, c: bytes, h: seq<RecordValue>)
    requires Sound(s) && c != [] && Explained(s.db, c, h)
    ensures Explained(Cleared(s).db, c, ClearAll(h))
  {
    hide Decode, Encoded, Cleared, Consistent;
    ClearedExact(s, c);
    if h != [] { MergeAllCleared(h); }
  }

  lemma PurgeExplained(s: State, cutoff: Option<int64>, c: bytes, h: seq<RecordValue>)
    requires Sound(s) && c != [] && Explained(s.db, c, h)
    ensures Explained(Purged(s, cutoff).db, c, AfterPurge(h, cutoff))
  {
    PurgeExact(s, cutoff, c);
  }

  function AfterPurge(h: seq<RecordValue>, cutoff: Option<int64>): (r: seq<RecordValue>) {
    if h != [] && Effective(cutoff) && Reached(MergeAll(h).updatedAt, cutoff.value) then [] else h
  }

  lemma StepExplained(s: State, q: Request, c: bytes, h: seq<RecordValue>)
    requires Sound(s) && c != [] && Storable(q) && Explained(s.db, c, h)
    ensures Explained(Step(s, q).db, c, NextHistory(h, q, c))
  {
    match q
    case UpsertBatch(ins) => UpsertExplained(s, ins, c, h);
    case ClearKnown => ClearExplained(s, c, h);
    case Purge(cutoff) => PurgeExplained(s, cutoff, c, h);
  }

  /** Main history result: after every safe run from the empty store a call is
      stored exactly when its history is nonempty, and its record is the merge of
      that history. */
  lemma {:induction false} RecordsAreHistories(qs: seq<Request>, c: bytes)
    requires AlwaysSafe(EMPTY, qs) && c != []
    requires forall i :: 0 <= i < |qs| ==> Storable(qs[i])
    ensures Explained(Run(EMPTY, qs).db, c, History(qs, c))
    decreases |qs|
  {
    hide Decode, Encoded, NextHistory, Step, Consistent, SafeRequest;
    if qs == [] {
      FamiliesDisjoint(0, c, c);
    } else {
      var n := |qs| - 1;
      AlwaysSafePrefix(EMPTY, qs);
      RecordsAreHistories(qs[..n], c);
      EmptySound();
      SafeKeepsSound(EMPTY, qs, n);
      StepExplained(Run(EMPTY, qs[..n]), qs[n], c, History(qs[..n], c));
    }
  }

  lemma AlwaysSafePrefix(s: State, qs: seq<Request>)
    requires qs != [] && AlwaysSafe(s, qs)
    ensures AlwaysSafe(s, qs[..|qs| - 1])
  {
    var t := qs[..|qs| - 1];
    forall i | 0 <= i < |t| ensures SafeRequest(Run(s, t[..i]), t[i]) {
      assert t[..i] == qs[..i] && t[i] == qs[i];
    }
  }
}
