/** How batching shows in the grid store: a batch reads existing values from the database, so
    of a call it names twice only the last value counts. */
module GridBatches {
  import opened Common
  import opened GridKeys
  import opened GridRecord
  import opened GridStore
  import opened GridRuns

  /** The record of a call, if it has one. */
  function RecordOf(db: map<bytes, bytes>, c: bytes): (v: Option<RecordValue>)
    requires Readable(db, c)
  {
    if Present(db, c) then Some(Value(db, c)) else None
  }

  function Last(occ: seq<RecordValue>): (v: RecordValue)
    requires occ != []
  {
    occ[|occ| - 1]
  }

  lemma {:induction false} OccurrencesConcat(a: seq<Incoming>, b: seq<Incoming>, c: bytes)
    ensures Occurrences(a + b, c) == Occurrences(a, c) + Occurrences(b, c)
  {
    if b == [] {
      assert a + b == a && Occurrences(b, c) == [];
    } else {
      var n := |b| - 1;
      OccurrencesConcat(a, b[..n], c);
      assert (a + b)[..|a + b| - 1] == a + b[..n];
    }
  }

  lemma {:induction false} OccurrencesStorable(ins: seq<Incoming>, c: bytes)
    requires Storable(UpsertBatch(ins))
    ensures forall i :: 0 <= i < |Occurrences(ins, c)| ==> Canonical(Occurrences(ins, c)[i])
  {
    if ins != [] { OccurrencesStorable(ins[..|ins| - 1], c); }
  }

  /** Merging a storable value into a record gives a value that is stored as it is. */
  lemma MergedStored(s: State, c: bytes, v: RecordValue)
    requires Readable(s.db, c) && Canonical(v)
    ensures Canonical(Merged(s.db, c, v)) && Stored(Merged(s.db, c, v)) == Merged(s.db, c, v)
  {
    hide Canonical, Merge, Stored, Decode;
    if Present(s.db, c) {
      DecodedIsCanonical(s.db[CallKey(c)]);
      MergeKeepsCanonical(Value(s.db, c), v);
    }
    StoredUnchanged(Merged(s.db, c, v));
  }

  /** A call's record after a storable batch. */
  lemma RecordAfter(s: State, ins: seq<Incoming>, c: bytes)
    requires Sound(s) && c != [] && Storable(UpsertBatch(ins))
    ensures Readable(s.db, c) && Readable(Upserted(s, ins).db, c)
    ensures var occ := Occurrences(ins, c);
            RecordOf(Upserted(s, ins).db, c)
            == if occ == [] then RecordOf(s.db, c) else Some(Merged(s.db, c, Last(occ)))
  {
    hide Sound, Upserted, Stored, Decode, Canonical, Merge;
    UpsertedValue(s, ins, c);
    OccurrencesStorable(ins, c);
    var occ := Occurrences(ins, c);
    if occ != [] { MergedStored(s, c, Last(occ)); }
  }

  /** Main batching result: one batch a + b and two batches a, b leave a call the same record if
      and only if the call is not in both, or merging the last value of a first changes nothing. */
  lemma BatchingShowsIff(s: State, a: seq<Incoming>, b: seq<Incoming>, c: bytes)
    requires Sound(s) && Sound(Upserted(s, a)) && c != []
    requires Storable(UpsertBatch(a)) && Storable(UpsertBatch(b))
    ensures Readable(s.db, c) && Readable(Upserted(s, a + b).db, c)
            && Readable(Upserted(Upserted(s, a), b).db, c)
    ensures var oa, ob := Occurrences(a, c), Occurrences(b, c);
            RecordOf(Upserted(s, a + b).db, c) == RecordOf(Upserted(Upserted(s, a), b).db, c) <==>
            || oa == [] || ob == []
            || Merged(s.db, c, Last(ob)) == Merge(Merged(s.db, c, Last(oa)), Last(ob))
  {
    hide Sound, Upserted, Decode, Canonical, Merge, Occurrences;
    OccurrencesConcat(a, b, c);
    RecordAfter(s, a, c);
    RecordAfter(s, a + b, c);
    RecordAfter(Upserted(s, a), b, c);
  }

  /** The grid w is taken over x. */
  predicate Overrides(x: Grid, w: Grid) {
    w.valid && !(w.derived && x.valid && !x.derived)
  }

  /** Passing over v on the way from record e to value w loses nothing: v counts no observation,
      knows nothing e and w do not, and carries no instant, country data, expiry or grid that
      would have lasted. */
  predicate Negligible(e: RecordValue, v: RecordValue, w: RecordValue) {
    && v.observations == 0
    && (v.isKnown ==> e.isKnown || w.isKnown)
    && v.updatedAt <= Max(e.updatedAt, w.updatedAt)
    && (v.expiresAt == EXPIRES_NONE || w.expiresAt != EXPIRES_NONE || v.expiresAt == e.expiresAt)
    && (!v.cty.valid || w.cty.valid || v.cty == e.cty)
    && (v.firstSeen == 0 || (e.firstSeen != 0 && e.firstSeen <= v.firstSeen)
        || (w.firstSeen != 0 && w.firstSeen <= v.firstSeen))
    && (!Overrides(e.grid, v.grid) || (Overrides(e.grid, w.grid) && Overrides(v.grid, w.grid))
        || v.grid == MergeGrid(e.grid, w.grid))
  }

  lemma NegligibleIff(e: RecordValue, v: RecordValue, w: RecordValue)
    ensures Merge(e, w) == Merge(Merge(e, v), w) <==> Negligible(e, v, w)
  {
    ObservationsIff(e.observations, v.observations, w.observations);
    GridIff(e.grid, v.grid, w.grid);
    hide Overrides, MergeGrid;
  }

  lemma ObservationsIff(e: uint64, v: uint64, w: uint64)
    ensures (e + w) % TWO64 == ((e + v) % TWO64 + w) % TWO64 <==> v == 0
  {
  }

  lemma GridIff(e: Grid, v: Grid, w: Grid)
    ensures MergeGrid(MergeGrid(e, v), w) == MergeGrid(e, w) <==>
            || !Overrides(e, v) || (Overrides(e, w) && Overrides(v, w)) || v == MergeGrid(e, w)
  {
  }

  /** For a stored call the condition reads off the values. */
  lemma StoredBatchingShowsIff(s: State, a: seq<Incoming>, b: seq<Incoming>, c: bytes)
    requires Sound(s) && Sound(Upserted(s, a)) && c != []
    requires Storable(UpsertBatch(a)) && Storable(UpsertBatch(b))
    requires Readable(s.db, c) && Present(s.db, c)
    ensures Readable(Upserted(s, a + b).db, c) && Readable(Upserted(Upserted(s, a), b).db, c)
    ensures var oa, ob := Occurrences(a, c), Occurrences(b, c);
            RecordOf(Upserted(s, a + b).db, c) == RecordOf(Upserted(Upserted(s, a), b).db, c) <==>
            oa == [] || ob == [] || Negligible(Value(s.db, c), Last(oa), Last(ob))
  {
    hide Sound, Upserted, Decode, Canonical, Occurrences, Negligible, Merge;
    BatchingShowsIff(s, a, b, c);
    var oa, ob := Occurrences(a, c), Occurrences(b, c);
    if oa != [] && ob != [] { NegligibleIff(Value(s.db, c), Last(oa), Last(ob)); }
  }

  /** In particular the batching shows whenever the value that is passed over counts any
      observation. */
  lemma ObservationsShow(s: State, a: seq<Incoming>, b: seq<Incoming>, c: bytes)
    requires Sound(s) && Sound(Upserted(s, a)) && c != []
    requires Storable(UpsertBatch(a)) && Storable(UpsertBatch(b))
    requires Occurrences(a, c) != [] && Occurrences(b, c) != [] && Last(Occurrences(a, c)).observations != 0
    ensures Readable(Upserted(s, a + b).db, c) && Readable(Upserted(Upserted(s, a), b).db, c)
    ensures RecordOf(Upserted(s, a + b).db, c) != RecordOf(Upserted(Upserted(s, a), b).db, c)
  {
    hide Sound, Upserted, Decode, Canonical, Occurrences;
    BatchingShowsIff(s, a, b, c);
  }

  /** A concrete pair of runs: a stored call named twice more, in one batch or in two. */
  lemma RepeatDropsFirst(v: RecordValue)
    requires Canonical(v) && v.observations != 0 && v.updatedAt > 0
    ensures var one := UpsertBatch([Incoming([0x41], v)]);
            var both := UpsertBatch([Incoming([0x41], v), Incoming([0x41], v)]);
            var s, t := Run(EMPTY, [one, both]), Run(EMPTY, [one, one, one]);
            && Readable(s.db, [0x41]) && Readable(t.db, [0x41])
            && RecordOf(s.db, [0x41]) != RecordOf(t.db, [0x41])
  {
    var c: bytes := [0x41];
    var ins := [Incoming(c, v)];
    var one, both := UpsertBatch(ins), UpsertBatch(ins + ins);
    assert ins + ins == [Incoming(c, v), Incoming(c, v)];
    PlainRunsSound([one, one]);
    SoundPrefixes(one);
    SingleOccurrence(c, v);
    var s := Upserted(EMPTY, ins);
    hide Sound, Upserted, Decode, Canonical, Occurrences;
    RunTwo(EMPTY, one, both);
    RunThree(EMPTY, one, one, one);
    ObservationsShow(s, ins, ins, c);
  }

  lemma SoundPrefixes(q: Request)
    requires AlwaysSound(EMPTY, [q, q])
    ensures Sound(Step(EMPTY, q)) && Sound(Step(Step(EMPTY, q), q))
  {
    hide Sound, Step;
    RunOne(EMPTY, q);
    RunTwo(EMPTY, q, q);
    assert [q, q][..1] == [q] && [q, q][..2] == [q, q];
  }

  lemma RunThree(s: State, p: Request, q: Request, r: Request)
    ensures Run(s, [p, q, r]) == Step(Step(Step(s, p), q), r)
  {
    hide Step;
    RunTwo(s, p, q);
    assert [p, q, r][..2] == [p, q];
  }
}
