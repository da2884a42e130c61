/** Grid-store records: normalization, merge and the versioned byte codec. */
module GridRecord {
  import opened Common
  import opened Bytes
  import opened Text

  const RECORD_VERSION: byte := 2
  const RECORD_HEADER_SIZE := 48
  const EXPIRES_NONE: int64 := -1

  /** A caller's record. A missing grid or instant is Go's invalid NullString or zero time. */
  datatype Record = Record(
    call: bytes,
    isKnown: bool,
    grid: Option<bytes>,
    gridDerived: bool,
    ctyValid: bool,
    ctyADIF: int64,
    ctyCQZone: int64,
    ctyITUZone: int64,
    ctyContinent: bytes,
    ctyCountry: bytes,
    observations: int64,
    firstSeen: Option<int64>,
    updatedAt: Option<int64>,
    expiresAt: Option<int64>)

  /** The grid columns of a stored value. */
  datatype Grid = Grid(text: bytes, valid: bool, derived: bool)

  /** The country columns of a stored value. */
  datatype Cty = Cty(valid: bool, adif: uint32, cqZone: uint16, ituZone: uint16,
                     continent: bytes, country: bytes)

  /** A stored value; instants are Unix seconds. */
  datatype RecordValue = RecordValue(
    isKnown: bool,
    grid: Grid,
    cty: Cty,
    observations: uint64,
    firstSeen: int64,
    updatedAt: int64,
    expiresAt: int64)

  // ---------------------------------------------------------------- normalization

  function NormalizeCall(call: bytes): (r: bytes) {
    ToUpper(TrimSpace(call))
  }

  function NormalizeGrid(grid: Option<bytes>, derived: bool): (g: Grid) {
    var text := if grid.None? then [] else ToUpper(TrimSpace(grid.value));
    Grid(text, text != [], derived && text != [])
  }

  function ClampUint32(v: int64): (r: uint32) {
    if v <= 0 then 0 else if v > 0xFFFF_FFFF then 0xFFFF_FFFF else v
  }

  const NO_CTY := Cty(false, 0, 0, 0, [], [])

  function NormalizeCty(rec: Record): (c: Cty) {
    var continent := ToUpper(TrimSpace(rec.ctyContinent));
    var country := TrimSpace(rec.ctyCountry);
    if rec.ctyValid || rec.ctyADIF > 0 || rec.ctyCQZone > 0 || rec.ctyITUZone > 0
       || continent != [] || country != []
    then Cty(true, ClampUint32(rec.ctyADIF), ClampUint16(rec.ctyCQZone), ClampUint16(rec.ctyITUZone),
             continent, country)
    else NO_CTY
  }

  function NormalizeRecordValue(rec: Record, now: int64): (v: RecordValue) {
    var updatedAt := if rec.updatedAt.None? then now else rec.updatedAt.value;
    RecordValue(
      rec.isKnown,
      NormalizeGrid(rec.grid, rec.gridDerived),
      NormalizeCty(rec),
      if rec.observations < 0 then 0 else rec.observations,
      if rec.firstSeen.None? then updatedAt else rec.firstSeen.value,
      updatedAt,
      if rec.expiresAt.None? then EXPIRES_NONE else rec.expiresAt.value)
  }

  // ---------------------------------------------------------------- merge

  function MergeGrid(existing: Grid, incoming: Grid): (g: Grid) {
    if !incoming.valid then existing
    else if incoming.derived && existing.valid && !existing.derived
    then existing.(valid := true, derived := false)
    else incoming
  }

  function MergeFirstSeen(existing: int64, incoming: int64): (t: int64) {
    if existing != 0 && (incoming == 0 || existing < incoming) then existing else incoming
  }

  /** mergeRecordValue with found == true. */
  function Merge(existing: RecordValue, incoming: RecordValue): (m: RecordValue) {
    RecordValue(
      existing.isKnown || incoming.isKnown,
      MergeGrid(existing.grid, incoming.grid),
      if incoming.cty.valid then incoming.cty else existing.cty,
      (existing.observations + incoming.observations) % TWO64,
      MergeFirstSeen(existing.firstSeen, incoming.firstSeen),
      Max(existing.updatedAt, incoming.updatedAt),
      if incoming.expiresAt == EXPIRES_NONE then existing.expiresAt else incoming.expiresAt)
  }

  lemma ModAddAssociative(a: uint64, b: uint64, c: uint64)
    ensures ((a + b) % TWO64 + c) % TWO64 == (a + (b + c) % TWO64) % TWO64
  {
    ModAdd(a + b, c);
    ModAdd(b + c, a);
  }

  lemma ModAdd(a: nat, b: nat)
    ensures (a % TWO64 + b) % TWO64 == (a + b) % TWO64
  {
  }

  /** Merging is associative: a history may be merged in any grouping. */
  lemma MergeAssociative(a: RecordValue, b: RecordValue, c: RecordValue)
    ensures Merge(Merge(a, b), c) == Merge(a, Merge(b, c))
  {
    ModAddAssociative(a.observations, b.observations, c.observations);
  }

  /** The value left after a history of incoming values, the first one stored as is. */
  function MergeAll(h: seq<RecordValue>): (v: RecordValue)
    requires h != []
    decreases |h|
  {
    if |h| == 1 then h[0] else Merge(MergeAll(h[..|h| - 1]), h[|h| - 1])
  }

  /** The history can be cut anywhere: merging the parts merges the whole. */
  lemma {:induction false} MergeAllConcat(h: seq<RecordValue>, g: seq<RecordValue>)
    requires h != [] && g != []
    ensures MergeAll(h + g) == Merge(MergeAll(h), MergeAll(g))
    decreases |g|
  {
    var n := |g| - 1;
    assert (h + g)[..|h| + n] == h + g[..n];
    if n > 0 {
      MergeAllConcat(h, g[..n]);
      MergeAssociative(MergeAll(h), MergeAll(g[..n]), g[n]);
    } else {
      assert h + g[..n] == h;
    }
  }

  // Independent descriptions of what a merged history holds.

  function ObservationTotal(h: seq<RecordValue>): (t: nat) {
    if h == [] then 0 else ObservationTotal(h[..|h| - 1]) + h[|h| - 1].observations
  }

  predicate ActualGrid(v: RecordValue) { v.grid.valid && !v.grid.derived }

  /** The last grid of the history that is not derived. */
  function LastActualGrid(h: seq<RecordValue>): (g: Option<Grid>) {
    if h == [] then Option.None
    else if ActualGrid(h[|h| - 1]) then Some(h[|h| - 1].grid)
    else LastActualGrid(h[..|h| - 1])
  }

  /** The last grid of the history, derived or not. */
  function LastGrid(h: seq<RecordValue>): (g: Option<Grid>) {
    if h == [] then Option.None
    else if h[|h| - 1].grid.valid then Some(h[|h| - 1].grid)
    else LastGrid(h[..|h| - 1])
  }

  function LastCty(h: seq<RecordValue>): (c: Option<Cty>) {
    if h == [] then Option.None
    else if h[|h| - 1].cty.valid then Some(h[|h| - 1].cty)
    else LastCty(h[..|h| - 1])
  }

  function LastExpiry(h: seq<RecordValue>): (t: int64) {
    if h == [] then EXPIRES_NONE
    else if h[|h| - 1].expiresAt != EXPIRES_NONE then h[|h| - 1].expiresAt
    else LastExpiry(h[..|h| - 1])
  }

  /** The grid is the last non-derived one if any was ever seen, else the last
      derived one, else still absent. */
  lemma {:induction false} MergeAllGrid(h: seq<RecordValue>)
    requires h != []
    ensures LastActualGrid(h).Some? ==> MergeAll(h).grid == LastActualGrid(h).value
    ensures LastActualGrid(h).None? && LastGrid(h).Some? ==> MergeAll(h).grid == LastGrid(h).value
    ensures MergeAll(h).grid.valid <==> LastGrid(h).Some?
    ensures ActualGrid(MergeAll(h)) <==> LastActualGrid(h).Some?
    decreases |h|
  {
    var n := |h| - 1;
    if n > 0 {
      MergeAllGrid(h[..n]);
    } else {
      assert LastGrid(h[..n]).None? && LastActualGrid(h[..n]).None?;
    }
  }

  /** Country data and expiry come from the last value that carried any. */
  lemma {:induction false} MergeAllLastWins(h: seq<RecordValue>)
    requires h != []
    ensures LastCty(h).Some? ==> MergeAll(h).cty == LastCty(h).value
    ensures MergeAll(h).cty.valid <==> LastCty(h).Some?
    ensures MergeAll(h).expiresAt == LastExpiry(h)
    decreases |h|
  {
    var n := |h| - 1;
    if n > 0 {
      MergeAllLastWins(h[..n]);
    } else {
      assert LastCty(h[..n]).None? && LastExpiry(h[..n]) == EXPIRES_NONE;
    }
  }

  /** Observations add modulo 2^64. */
  lemma {:induction false} MergeAllObservations(h: seq<RecordValue>)
    requires h != []
    ensures MergeAll(h).observations == ObservationTotal(h) % TWO64
    decreases |h|
  {
    var n := |h| - 1;
    if n > 0 {
      MergeAllObservations(h[..n]);
      ModAdd(ObservationTotal(h[..n]), h[n].observations);
    }
  }

  /** First-seen is the least nonzero instant of the history, zero when there is none. */
  lemma {:induction false} MergeAllFirstSeen(h: seq<RecordValue>)
    requires h != []
    ensures MergeAll(h).firstSeen == 0 <==> forall i :: 0 <= i < |h| ==> h[i].firstSeen == 0
    ensures forall i :: 0 <= i < |h| && h[i].firstSeen != 0 ==> MergeAll(h).firstSeen <= h[i].firstSeen
    ensures exists i :: 0 <= i < |h| && MergeAll(h).firstSeen == h[i].firstSeen
    decreases |h|
  {
    var n := |h| - 1;
    var t := h[..n];
    if n > 0 {
      MergeAllFirstSeen(t);
      var m := MergeAll(t).firstSeen;
      var r := MergeAll(h).firstSeen;
      assert r == MergeFirstSeen(m, h[n].firstSeen);
      assert forall j :: 0 <= j < n ==> t[j] == h[j];
      var i :| 0 <= i < |t| && m == t[i].firstSeen;
      assert r == h[if r == m then i else n].firstSeen;
    }
  }

  /** Updated-at is the greatest instant of the history and known is sticky. */
  lemma {:induction false} MergeAllUpdated(h: seq<RecordValue>)
    requires h != []
    ensures forall i :: 0 <= i < |h| ==> h[i].updatedAt <= MergeAll(h).updatedAt
    ensures exists i :: 0 <= i < |h| && h[i].updatedAt == MergeAll(h).updatedAt
    ensures MergeAll(h).isKnown <==> exists i :: 0 <= i < |h| && h[i].isKnown
    decreases |h|
  {
    var n := |h| - 1;
    var t := h[..n];
    if n > 0 {
      MergeAllUpdated(t);
      var m, r := MergeAll(t), MergeAll(h);
      assert r.updatedAt == Max(m.updatedAt, h[n].updatedAt) && r.isKnown == (m.isKnown || h[n].isKnown);
      assert forall j :: 0 <= j < n ==> t[j] == h[j];
      var k :| 0 <= k < |t| && t[k].updatedAt == m.updatedAt;
      assert r.updatedAt == h[if r.updatedAt == m.updatedAt then k else n].updatedAt;
      if m.isKnown {
        var q :| 0 <= q < |t| && t[q].isKnown;
        assert h[q].isKnown;
      }
    }
  }

  // ---------------------------------------------------------------- codec

  function Flags(v: RecordValue): (f: byte) {
    (if v.isKnown then 1 else 0) + (if v.cty.valid then 2 else 0)
    + (if v.grid.valid && v.grid.derived then 4 else 0)
  }

  /** What the encoder writes for the three strings. */
  function GridBytes(v: RecordValue): (s: bytes) { if v.grid.valid then v.grid.text else [] }

  function ContinentBytes(v: RecordValue): (s: bytes) { if v.cty.valid then v.cty.continent else [] }

  function CountryBytes(v: RecordValue): (s: bytes) { if v.cty.valid then v.cty.country else [] }

  function Counters(v: RecordValue): (s: bytes)
    ensures |s| == 34
  {
    [RECORD_VERSION] + [Flags(v)] + BE(v.observations, 8) + BE(ToU64(v.firstSeen), 8)
    + BE(ToU64(v.updatedAt), 8) + BE(ToU64(v.expiresAt), 8)
  }

  function Lengths(v: RecordValue): (s: bytes)
    ensures |s| == 14
  {
    BE(v.cty.adif, 4) + BE(v.cty.cqZone, 2) + BE(v.cty.ituZone, 2)
    + BE(|GridBytes(v)| % TWO16, 2) + BE(|ContinentBytes(v)| % TWO16, 2) + BE(|CountryBytes(v)| % TWO16, 2)
  }

  function Strings(v: RecordValue): (s: bytes) {
    GridBytes(v) + ContinentBytes(v) + CountryBytes(v)
  }

  function Encoded(v: RecordValue): (s: bytes) {
    Counters(v) + Lengths(v) + Strings(v)
  }

  method PutCounters(buf: array<byte>, v: RecordValue)
    requires buf.Length >= 34
    modifies buf
    ensures buf[..34] == Counters(v)
  {
    Put(buf, 0, [RECORD_VERSION]);
    Put(buf, 1, [Flags(v)]);
    Put(buf, 2, BE(v.observations, 8));
    Put(buf, 10, BE(ToU64(v.firstSeen), 8));
    Put(buf, 18, BE(ToU64(v.updatedAt), 8));
    Put(buf, 26, BE(ToU64(v.expiresAt), 8));
  }

  method PutLengths(buf: array<byte>, v: RecordValue)
    requires buf.Length >= 48
    modifies buf
    ensures buf[..48] == old(buf[..34]) + Lengths(v)
  {
    Put(buf, 34, BE(v.cty.adif, 4));
    Put(buf, 38, BE(v.cty.cqZone, 2));
    Put(buf, 40, BE(v.cty.ituZone, 2));
    Put(buf, 42, BE(|GridBytes(v)| % TWO16, 2));
    Put(buf, 44, BE(|ContinentBytes(v)| % TWO16, 2));
    Put(buf, 46, BE(|CountryBytes(v)| % TWO16, 2));
  }

  /** encodeRecordValue fills a buffer field by field. */
  method EncodeRecordValue(v: RecordValue) returns (buf: array<byte>)
    ensures fresh(buf) && buf[..] == Encoded(v)
  {
    var grid, continent, country := GridBytes(v), ContinentBytes(v), CountryBytes(v);
    buf := new byte[RECORD_HEADER_SIZE + |grid| + |continent| + |country|];
    PutCounters(buf, v);
    PutLengths(buf, v);
    ghost var header := buf[..RECORD_HEADER_SIZE];
    var offset := RECORD_HEADER_SIZE;
    Put(buf, offset, grid);
    offset := offset + |grid|;
    Put(buf, offset, continent);
    offset := offset + |continent|;
    Put(buf, offset, country);
    assert buf[..] == buf[..offset + |country|];
    assert buf[..] == header + (grid + continent + country);
  }

  function DecodeCty(raw: bytes, valid: bool, continent: bytes, country: bytes): (c: Cty)
    requires |raw| >= RECORD_HEADER_SIZE
  {
    Pow256Values();
    if valid
    then Cty(true, FromBE(raw[34..38]), FromBE(raw[38..40]), FromBE(raw[40..42]), continent, country)
    else NO_CTY
  }

  function Decode(raw: bytes): (r: Result<RecordValue>) {
    if |raw| < RECORD_HEADER_SIZE || raw[0] != RECORD_VERSION then Err else
      Pow256Values();
      var flags := raw[1];
      var c := RECORD_HEADER_SIZE + FromBE(raw[42..44]);
      var n := c + FromBE(raw[44..46]);
      var end := n + FromBE(raw[46..48]);
      if end > |raw| then Err else
        var grid := raw[RECORD_HEADER_SIZE..c];
        Ok(RecordValue(
          flags % 2 == 1,
          Grid(grid, grid != [], (flags / 4) % 2 == 1 && grid != []),
          DecodeCty(raw, (flags / 2) % 2 == 1, raw[c..n], raw[n..end]),
          FromBE(raw[2..10]),
          ToI64(FromBE(raw[10..18])),
          ToI64(FromBE(raw[18..26])),
          ToI64(FromBE(raw[26..34]))))
  }

  /** The header fields, each where the decoder looks for it. */
  predicate HasHeader(raw: bytes, v: RecordValue) {
    && |raw| >= RECORD_HEADER_SIZE
    && raw[0] == RECORD_VERSION && raw[1] == Flags(v)
    && raw[2..10] == BE(v.observations, 8)
    && raw[10..18] == BE(ToU64(v.firstSeen), 8)
    && raw[18..26] == BE(ToU64(v.updatedAt), 8)
    && raw[26..34] == BE(ToU64(v.expiresAt), 8)
    && raw[34..38] == BE(v.cty.adif, 4)
    && raw[38..40] == BE(v.cty.cqZone, 2)
    && raw[40..42] == BE(v.cty.ituZone, 2)
    && raw[42..44] == BE(|GridBytes(v)| % TWO16, 2)
    && raw[44..46] == BE(|ContinentBytes(v)| % TWO16, 2)
    && raw[46..48] == BE(|CountryBytes(v)| % TWO16, 2)
  }

  lemma EncodedHasHeader(v: RecordValue)
    ensures HasHeader(Encoded(v), v)
    ensures |Encoded(v)| == RECORD_HEADER_SIZE + |Strings(v)|
    ensures Encoded(v)[RECORD_HEADER_SIZE..] == Strings(v)
  {
    var raw := Encoded(v);
    assert raw[..34] == Counters(v) && raw[34..48] == Lengths(v);
    assert raw[0] == raw[..34][0] && raw[1] == raw[..34][1];
    assert raw[2..10] == raw[..34][2..10] && raw[10..18] == raw[..34][10..18];
    assert raw[18..26] == raw[..34][18..26] && raw[26..34] == raw[..34][26..34];
    assert raw[34..38] == raw[34..48][0..4] && raw[38..40] == raw[34..48][4..6];
    assert raw[40..42] == raw[34..48][6..8] && raw[42..44] == raw[34..48][8..10];
    assert raw[44..46] == raw[34..48][10..12] && raw[46..48] == raw[34..48][12..14];
  }

  /** The same fields read as numbers. */
  predicate HasNumbers(raw: bytes, v: RecordValue) {
    && |raw| >= RECORD_HEADER_SIZE
    && raw[0] == RECORD_VERSION && raw[1] == Flags(v)
    && FromBE(raw[2..10]) == v.observations
    && FromBE(raw[10..18]) == ToU64(v.firstSeen)
    && FromBE(raw[18..26]) == ToU64(v.updatedAt)
    && FromBE(raw[26..34]) == ToU64(v.expiresAt)
    && FromBE(raw[34..38]) == v.cty.adif
    && FromBE(raw[38..40]) == v.cty.cqZone
    && FromBE(raw[40..42]) == v.cty.ituZone
    && FromBE(raw[42..44]) == |GridBytes(v)| % TWO16
    && FromBE(raw[44..46]) == |ContinentBytes(v)| % TWO16
    && FromBE(raw[46..48]) == |CountryBytes(v)| % TWO16
  }

  lemma HeaderNumbers(raw: bytes, v: RecordValue)
    requires HasHeader(raw, v)
    ensures HasNumbers(raw, v)
  {
    Pow256Values();
    FromBEInverse(v.observations, 8);
    FromBEInverse(ToU64(v.firstSeen), 8);
    FromBEInverse(ToU64(v.updatedAt), 8);
    FromBEInverse(ToU64(v.expiresAt), 8);
    FromBEInverse(v.cty.adif, 4);
    FromBEInverse(v.cty.cqZone, 2);
    FromBEInverse(v.cty.ituZone, 2);
    FromBEInverse(|GridBytes(v)| % TWO16, 2);
    FromBEInverse(|ContinentBytes(v)| % TWO16, 2);
    FromBEInverse(|CountryBytes(v)| % TWO16, 2);
  }

  /** What a value comes back as: the flags, counters and instants exactly, the
      strings cut from the tail by their 16-bit lengths. */
  function Stored(v: RecordValue): (r: RecordValue) {
    var g, c, n := |GridBytes(v)| % TWO16, |ContinentBytes(v)| % TWO16, |CountryBytes(v)| % TWO16;
    var tail := Strings(v);
    v.(grid := Grid(tail[..g], g > 0, v.grid.valid && v.grid.derived && g > 0),
       cty := if v.cty.valid
              then v.cty.(continent := tail[g..g + c], country := tail[g + c..g + c + n])
              else NO_CTY)
  }

  lemma FlagBits(v: RecordValue)
    ensures Flags(v) % 2 == 1 <==> v.isKnown
    ensures (Flags(v) / 2) % 2 == 1 <==> v.cty.valid
    ensures (Flags(v) / 4) % 2 == 1 <==> v.grid.valid && v.grid.derived
  {
  }

  lemma SliceOfTail(raw: bytes, o: nat, a: nat, b: nat)
    requires a <= b && o + b <= |raw|
    ensures raw[o..][a..b] == raw[o + a..o + b]
  {
  }

  /** The decoder cuts the tail at the three lengths. */
  lemma DecodeTail(raw: bytes, g: nat, c: nat, n: nat, cty: bool, derived: bool)
    requires |raw| >= RECORD_HEADER_SIZE && raw[0] == RECORD_VERSION
    requires FromBE(raw[42..44]) == g && FromBE(raw[44..46]) == c && FromBE(raw[46..48]) == n
    requires g + c + n <= |raw| - RECORD_HEADER_SIZE
    requires cty == ((raw[1] / 2) % 2 == 1) && derived == ((raw[1] / 4) % 2 == 1)
    ensures Decode(raw).Ok?
    ensures var tail := raw[RECORD_HEADER_SIZE..];
            && Decode(raw).value.grid == Grid(tail[..g], g > 0, derived && g > 0)
            && Decode(raw).value.cty == DecodeCty(raw, cty, tail[g..g + c], tail[g + c..g + c + n])
  {
    var o := RECORD_HEADER_SIZE;
    SliceOfTail(raw, o, 0, g);
    SliceOfTail(raw, o, g, g + c);
    SliceOfTail(raw, o, g + c, g + c + n);
    assert |raw[o..o + g]| == g;
  }

  lemma DecodeScalars(raw: bytes, v: RecordValue)
    requires HasNumbers(raw, v) && Decode(raw).Ok?
    ensures var r := Decode(raw).value;
            r == v.(grid := r.grid, cty := r.cty)
  {
    FlagBits(v);
  }

  lemma StringsFit(v: RecordValue)
    ensures |Strings(v)| == |GridBytes(v)| + |ContinentBytes(v)| + |CountryBytes(v)|
  {
  }

  lemma DecodeWithHeader(raw: bytes, v: RecordValue)
    requires HasNumbers(raw, v) && raw[RECORD_HEADER_SIZE..] == Strings(v)
    ensures Decode(raw) == Ok(Stored(v))
  {
    hide FromBE, Flags, GridBytes, ContinentBytes, CountryBytes, Strings;
    StringsFit(v);
    var g, c, n := |GridBytes(v)| % TWO16, |ContinentBytes(v)| % TWO16, |CountryBytes(v)| % TWO16;
    FlagBits(v);
    DecodeTail(raw, g, c, n, v.cty.valid, v.grid.valid && v.grid.derived);
    DecodeScalars(raw, v);
  }

  /** Every stored value decodes, whatever its string lengths. */
  lemma DecodeEncoded(v: RecordValue)
    ensures Decode(Encoded(v)) == Ok(Stored(v))
  {
    EncodedHasHeader(v);
    HeaderNumbers(Encoded(v), v);
    DecodeWithHeader(Encoded(v), v);
  }

  /** The values the codec can carry: absent parts are blank and every length fits 16 bits. */
  predicate Canonical(v: RecordValue) {
    && (v.grid.valid <==> v.grid.text != [])
    && (v.grid.derived ==> v.grid.valid)
    && (!v.cty.valid ==> v.cty == NO_CTY)
    && ShortStrings(v)
  }

  /** Field lengths a caller must respect for its record to be stored faithfully. */
  predicate ShortStrings(v: RecordValue) {
    |v.grid.text| < TWO16 && |v.cty.continent| < TWO16 && |v.cty.country| < TWO16
  }

  lemma StoredUnchanged(v: RecordValue)
    ensures Stored(v) == v <==> Canonical(v)
  {
    var g, c := |GridBytes(v)|, |ContinentBytes(v)|;
    var tail := Strings(v);
    if Canonical(v) {
      assert tail[..g] == v.grid.text;
      assert tail[g..g + c] == v.cty.continent;
      assert tail[g + c..] == v.cty.country;
    }
  }

  /** Decoding inverts encoding exactly on the canonical values. */
  lemma RoundTrip(v: RecordValue)
    ensures Decode(Encoded(v)) == Ok(v) <==> Canonical(v)
  {
    DecodeEncoded(v);
    StoredUnchanged(v);
  }

  lemma NormalizedIsCanonical(rec: Record, now: int64)
    ensures var v := NormalizeRecordValue(rec, now); ShortStrings(v) ==> Canonical(v)
  {
  }

  lemma MergeKeepsCanonical(a: RecordValue, b: RecordValue)
    requires Canonical(a) && Canonical(b)
    ensures Canonical(Merge(a, b))
  {
  }

  /** Whatever decodes is canonical, so re-encoding a read record loses nothing. */
  lemma DecodedIsCanonical(raw: bytes)
    requires Decode(raw).Ok?
    ensures Canonical(Decode(raw).value)
  {
    Pow256Values();
  }
}
