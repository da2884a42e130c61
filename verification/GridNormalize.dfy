/** What normalization stores of a caller's record, told by the way back: the record a stored
    value is read as normalizes to that value again. */
module GridNormalize {
  import opened Common
  import opened Text
  import opened GridRecord
  import opened GridKeys
  import opened GridStore

  /** time.Time's zero value as Unix seconds; a record with it has no instant. */
  const ZERO_UNIX: int64 := -62_135_596_800

  function Instant(t: int64): (r: Option<int64>) {
    if t == ZERO_UNIX then None else Some(t)
  }

  /** recordValueToRecord. */
  function AsRecord(call: bytes, v: RecordValue): (r: Record) {
    Record(
      call,
      v.isKnown,
      if v.grid.valid && TrimSpace(v.grid.text) != [] then Some(v.grid.text) else None,
      v.grid.derived && v.grid.valid,
      v.cty.valid,
      if v.cty.valid then v.cty.adif else 0,
      if v.cty.valid then v.cty.cqZone else 0,
      if v.cty.valid then v.cty.ituZone else 0,
      if v.cty.valid then v.cty.continent else [],
      if v.cty.valid then v.cty.country else [],
      Wrap64(v.observations),
      Instant(v.firstSeen),
      Instant(v.updatedAt),
      if v.expiresAt == EXPIRES_NONE then None else Some(v.expiresAt))
  }

  /** Trimmed, and without a lower-case letter. */
  predicate Clean(s: bytes) {
    Trimmed(s) && forall i :: 0 <= i < |s| ==> !('a' as int <= s[i] <= 'z' as int)
  }

  lemma CleanUpper(s: bytes)
    ensures Clean(ToUpper(TrimSpace(s)))
    ensures ToUpper(TrimSpace(s)) == s <==> Clean(s)
  {
    TrimSpaceTrims(s);
    var t := TrimSpace(s);
    assert forall i :: 0 <= i < |t| ==> ToUpper(t)[i] == UpperByte(t[i]);
    if ToUpper(t) == s { assert Trimmed(ToUpper(t)); }
    if Clean(s) { assert ToUpper(s) == s; }
  }

  lemma TrimmedIff(s: bytes)
    ensures TrimSpace(s) == s <==> Trimmed(s)
  {
    TrimSpaceTrims(s);
  }

  /** The values a read and a write leave alone: grid and continent clean, country trimmed, absent
      parts blank, no instant that reads as missing, and a count that fits a Go int. */
  predicate Tidy(v: RecordValue) {
    && Clean(v.grid.text) && (v.grid.valid <==> v.grid.text != []) && (v.grid.derived ==> v.grid.valid)
    && Clean(v.cty.continent) && Trimmed(v.cty.country) && (!v.cty.valid ==> v.cty == NO_CTY)
    && v.observations < TWO63
    && v.updatedAt != ZERO_UNIX && v.firstSeen != ZERO_UNIX
  }

  lemma GridBack(v: RecordValue)
    ensures NormalizeGrid(AsRecord([], v).grid, AsRecord([], v).gridDerived) == v.grid <==>
            Clean(v.grid.text) && (v.grid.valid <==> v.grid.text != []) && (v.grid.derived ==> v.grid.valid)
  {
    CleanUpper(v.grid.text);
    TrimmedIff(v.grid.text);
    hide TrimSpace, ToUpper, Clean;
    EmptyClean();
  }

  lemma EmptyClean()
    ensures Clean([]) && ToUpper(TrimSpace([])) == [] && TrimSpace([]) == []
    ensures forall s: bytes :: TrimSpace(s) == [] ==> ToUpper(TrimSpace(s)) == []
  {
  }

  lemma CtyBack(v: RecordValue)
    ensures NormalizeCty(AsRecord([], v)) == v.cty <==>
            Clean(v.cty.continent) && Trimmed(v.cty.country) && (!v.cty.valid ==> v.cty == NO_CTY)
  {
    CleanUpper(v.cty.continent);
    TrimmedIff(v.cty.country);
    EmptyClean();
    hide TrimSpace, ToUpper, Clean, Trimmed;
    TrimmedIff([]);
  }

  /** Main normalization result: whatever the clock, the record read back from a stored value
      normalizes to that value if and only if the value is tidy. */
  lemma RebuildIff(call: bytes, v: RecordValue)
    ensures (forall now: int64 :: NormalizeRecordValue(AsRecord(call, v), now) == v) <==> Tidy(v)
  {
    GridBack(v);
    CtyBack(v);
    hide NormalizeGrid, NormalizeCty, Clean, Trimmed, TrimSpace;
    var rec, blank := AsRecord(call, v), AsRecord([], v);
    SameCty(call, v);
    var early, late := NormalizeRecordValue(rec, 0), NormalizeRecordValue(rec, 1);
    assert early.updatedAt == v.updatedAt == late.updatedAt ==> v.updatedAt != ZERO_UNIX;
  }

  lemma SameCty(call: bytes, v: RecordValue)
    ensures NormalizeCty(AsRecord(call, v)) == NormalizeCty(AsRecord([], v))
  {
    hide TrimSpace, ToUpper;
  }

  /** A missing update instant stands for the clock, a missing first sighting for the update. */
  lemma MissingInstants(rec: Record, now: int64)
    ensures NormalizeRecordValue(rec.(updatedAt := None), now)
            == NormalizeRecordValue(rec.(updatedAt := Some(now)), now)
    ensures rec.updatedAt.Some? ==>
              NormalizeRecordValue(rec.(firstSeen := None), now)
              == NormalizeRecordValue(rec.(firstSeen := rec.updatedAt), now)
  {
    hide TrimSpace, ToUpper;
  }

  /** A call is stored under its trimmed, upper-case spelling, however it is written. */
  lemma CallSpelling(call: bytes)
    ensures Clean(NormalizeCall(call)) && (NormalizeCall(call) == call <==> Clean(call))
    ensures NormalizeCall(ToLower(call)) == NormalizeCall(call)
    ensures NormalizeCall([32] + call + [32]) == NormalizeCall(call)
  {
    CleanUpper(call);
    TrimLower(call);
    TrimPadded(call);
    UpperLower(TrimSpace(call));
  }

  // ---------------------------------------------------------------- from records to purges

  /** No two records name the same call, spelling aside. */
  ghost predicate DistinctCalls(recs: seq<Record>) {
    forall i, j :: 0 <= i < j < |recs| ==> NormalizeCall(recs[i].call) != NormalizeCall(recs[j].call)
  }

  /** The instant a record is stored at: its own, or the clock's when it has none. */
  function StoredAt(rec: Record, now: int64): (t: int64) {
    match rec.updatedAt
    case Some(t) => t
    case None => now
  }

  lemma {:induction false} OneOccurrence(ins: seq<Incoming>, i: nat)
    requires i < |ins| && forall j :: 0 <= j < |ins| && j != i ==> ins[j].call != ins[i].call
    ensures Occurrences(ins, ins[i].call) == [ins[i].value]
    decreases |ins|
  {
    var n := |ins| - 1;
    if i < n {
      OneOccurrence(ins[..n], i);
    } else {
      OccurrencesIff(ins[..n], ins[i].call);
    }
  }

  lemma FirstBatchSafe(recs: seq<Record>, now: int64)
    requires DistinctCalls(recs)
    ensures Sound(EMPTY) && Sound(Upserted(EMPTY, Incomings(recs, now)))
  {
    hide NormalizeCall, NormalizeRecordValue;
    var ins := Incomings(recs, now);
    EmptySound();
    UpsertSoundIff(EMPTY, ins);
    assert forall i :: 0 <= i < |ins| ==> ins[i].call == NormalizeCall(recs[i].call);
    forall c: bytes ensures !Present(EMPTY.db, c) { FamiliesDisjoint(0, c, []); }
  }

  /** After a first batch each record is stored with its own instant. */
  lemma StoredInstant(recs: seq<Record>, now: int64, i: nat)
    requires DistinctCalls(recs) && i < |recs| && NormalizeCall(recs[i].call) != []
    ensures var s, c := Upserted(EMPTY, Incomings(recs, now)), NormalizeCall(recs[i].call);
            Present(s.db, c) && Readable(s.db, c) && Value(s.db, c).updatedAt == StoredAt(recs[i], now)
  {
    hide NormalizeCall, Upserted, Encoded, Decode, NormalizeGrid, NormalizeCty, Sound;
    var ins, c := Incomings(recs, now), NormalizeCall(recs[i].call);
    FirstBatchSafe(recs, now);
    assert forall j :: 0 <= j < |ins| ==> ins[j].call == NormalizeCall(recs[j].call);
    OneOccurrence(ins, i);
    UpsertedRow(EMPTY, ins, c);
    FamiliesDisjoint(0, c, []);
    DecodeEncoded(ins[i].value);
  }

  /** From the caller's records to the purge: of a first batch of distinct calls, a purge removes
      exactly those whose own instant lies between the epoch and the cutoff, or all of them at
      the greatest cutoff. */
  lemma PurgeByRecord(recs: seq<Record>, now: int64, cutoff: int64, i: nat)
    requires DistinctCalls(recs) && cutoff > 0 && i < |recs| && NormalizeCall(recs[i].call) != []
    ensures var s := Purged(Upserted(EMPTY, Incomings(recs, now)), Some(cutoff));
            Present(s.db, NormalizeCall(recs[i].call)) <==>
            cutoff != MAX_INT64 && !(0 <= StoredAt(recs[i], now) <= cutoff)
  {
    hide NormalizeCall, Upserted, Decode, Sound, Purged, Incomings;
    StoredInstant(recs, now, i);
    FirstBatchSafe(recs, now);
    PurgeExact(Upserted(EMPTY, Incomings(recs, now)), Some(cutoff), NormalizeCall(recs[i].call));
  }
}
