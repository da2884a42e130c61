/** The archive's record codec and its fast peek at the mode field. */
module ArchiveCodec {
  import opened Common
  import opened Bytes
  import opened Text

  const RECORD_VERSION: byte := 2
  const FIXED_HEADER_SIZE := 28
  const FIELD_COUNT := 13
  const FIELD_MODE := 3
  const HEADER_SIZE := 54

  /** A record as the encoder receives it, its strings already trimmed: fields holds the
      thirteen strings in wire order, freqBits the IEEE bits of the frequency. */
  datatype Record = Record(
    hasReport: bool, isHuman: bool, dxGridDerived: bool, deGridDerived: bool,
    ttl: byte, freqBits: uint64, report: int64,
    dxCQZone: int64, deCQZone: int64, dxADIF: int64, deADIF: int64,
    fields: seq<bytes>)

  /** uint32(clampInt(v)). */
  function AdifBits(v: int64): (r: uint32) { if v < 0 then 0 else v % TWO32 }

  /** uint32(int32(v)) and back. */
  function ReportBits(v: int64): (r: uint32) { v % TWO32 }

  function ReportFrom(u: uint32): (v: int64) { if u < 0x8000_0000 then u else u - TWO32 }

  function Flags(r: Record): (f: byte) {
    (if r.hasReport then 1 else 0) + (if r.isHuman then 2 else 0)
    + (if r.dxGridDerived then 4 else 0) + (if r.deGridDerived then 8 else 0)
  }

  function Fixed(r: Record): (s: bytes)
    ensures |s| == FIXED_HEADER_SIZE
  {
    [RECORD_VERSION, Flags(r), r.ttl, 0] + BE(r.freqBits, 8) + BE(ReportBits(r.report), 4)
    + BE(ClampUint16(r.dxCQZone), 2) + BE(ClampUint16(r.deCQZone), 2)
    + BE(AdifBits(r.dxADIF), 4) + BE(AdifBits(r.deADIF), 4)
  }

  function LengthBytes(fields: seq<bytes>): (s: bytes)
    ensures |s| == 2 * |fields|
  {
    if fields == [] then [] else
      LengthBytes(fields[..|fields| - 1]) + BE(|fields[|fields| - 1]| % TWO16, 2)
  }

  function Joined(fields: seq<bytes>): (s: bytes) {
    if fields == [] then [] else Joined(fields[..|fields| - 1]) + fields[|fields| - 1]
  }

  function Encoded(r: Record): (s: bytes) {
    Fixed(r) + LengthBytes(r.fields) + Joined(r.fields)
  }

  // ---------------------------------------------------------------- decoding

  function LengthAt(raw: bytes, i: nat): (n: nat)
    requires |raw| >= HEADER_SIZE && i < FIELD_COUNT
    ensures n < TWO16
  {
    Pow256Values();
    FromBE(raw[FIXED_HEADER_SIZE + 2 * i..FIXED_HEADER_SIZE + 2 * i + 2])
  }

  /** The sum of the first n lengths. */
  function LengthSum(raw: bytes, n: nat): (s: nat)
    requires |raw| >= HEADER_SIZE && n <= FIELD_COUNT
  {
    if n == 0 then 0 else LengthSum(raw, n - 1) + LengthAt(raw, n - 1)
  }

  lemma {:induction false} LengthSumMono(raw: bytes, m: nat, n: nat)
    requires |raw| >= HEADER_SIZE && m <= n <= FIELD_COUNT
    ensures LengthSum(raw, m) <= LengthSum(raw, n)
  {
    if m < n { LengthSumMono(raw, m, n - 1); }
  }

  predicate WellFormed(raw: bytes) {
    |raw| >= HEADER_SIZE && raw[0] == RECORD_VERSION && HEADER_SIZE + LengthSum(raw, FIELD_COUNT) == |raw|
  }

  /** The i-th string: the bytes between two partial sums of the lengths. */
  function FieldAt(raw: bytes, i: nat): (s: bytes)
    requires |raw| >= HEADER_SIZE && i < FIELD_COUNT
  {
    var from, to := HEADER_SIZE + LengthSum(raw, i), HEADER_SIZE + LengthSum(raw, i + 1);
    if to <= |raw| then raw[from..to] else []
  }

  function Scalars(raw: bytes): (r: Record)
    requires |raw| >= HEADER_SIZE
  {
    Pow256Values();
    var f := raw[1];
    Record(f % 2 == 1, (f / 2) % 2 == 1, (f / 4) % 2 == 1, (f / 8) % 2 == 1,
           raw[2], FromBE(raw[4..12]), ReportFrom(FromBE(raw[12..16])),
           FromBE(raw[16..18]), FromBE(raw[18..20]), FromBE(raw[20..24]), FromBE(raw[24..28]), [])
  }

  /** decodeRecord: fails unless the version fits and the lengths fill the record exactly. */
  function Decode(raw: bytes): (r: Result<Record>) {
    if !WellFormed(raw) then Err
    else Ok(Scalars(raw).(fields := seq(FIELD_COUNT, i requires 0 <= i < FIELD_COUNT => FieldAt(raw, i))))
  }

  lemma SumStart(raw: bytes)
    requires |raw| >= HEADER_SIZE
    ensures LengthSum(raw, 0) == 0
  {
  }

  lemma SumStep(raw: bytes, i: nat)
    requires |raw| >= HEADER_SIZE && i < FIELD_COUNT
    ensures LengthSum(raw, i + 1) == LengthSum(raw, i) + LengthAt(raw, i)
    ensures HEADER_SIZE + LengthSum(raw, i + 1) <= |raw| ==>
              FieldAt(raw, i) == raw[HEADER_SIZE + LengthSum(raw, i)..HEADER_SIZE + LengthSum(raw, i + 1)]
  {
    hide LengthAt;
  }

  /** decodeRecord: the header is checked first, the strings after it. */
  method DecodeRecord(raw: bytes) returns (r: Result<Record>)
    ensures r == Decode(raw)
  {
    hide LengthAt, LengthSum, FieldAt, Scalars;
    if |raw| < HEADER_SIZE || raw[0] != RECORD_VERSION { return Err; }
    var fields, ok := DecodeFields(raw);
    if !ok { return Err; }
    return Ok(Scalars(raw).(fields := fields));
  }

  /** The loop over the strings: bounds are checked field by field and the end last. */
  method DecodeFields(raw: bytes) returns (fields: seq<bytes>, ok: bool)
    requires |raw| >= HEADER_SIZE
    ensures ok <==> HEADER_SIZE + LengthSum(raw, FIELD_COUNT) == |raw|
    ensures ok ==> fields == seq(FIELD_COUNT, i requires 0 <= i < FIELD_COUNT => FieldAt(raw, i))
  {
    hide LengthAt, LengthSum, FieldAt;
    SumStart(raw);
    var dataOffset := HEADER_SIZE;
    fields := [];
    for i := 0 to FIELD_COUNT
      invariant |fields| == i && dataOffset == HEADER_SIZE + LengthSum(raw, i) <= |raw|
      invariant forall j :: 0 <= j < i ==> fields[j] == FieldAt(raw, j)
    {
      var l := LengthAt(raw, i);
      SumStep(raw, i);
      if l == 0 {
        fields := fields + [[]];
        continue;
      }
      if dataOffset + l > |raw| {
        LengthSumMono(raw, i + 1, FIELD_COUNT);
        return fields, false;
      }
      fields := fields + [raw[dataOffset..dataOffset + l]];
      dataOffset := dataOffset + l;
    }
    ok := dataOffset == |raw|;
  }

  // ---------------------------------------------------------------- mode peek

  const FT8: bytes := [0x46, 0x54, 0x38]
  const FT4: bytes := [0x46, 0x54, 0x34]

  /** FT8 or FT4, ignoring case. */
  predicate IsFT(mode: bytes) { ToUpper(mode) == FT8 || ToUpper(mode) == FT4 }

  /** modeIsFTRecord agrees with the full decoder on every byte string: it fails exactly
      when decoding fails and otherwise tests the decoded mode. */
  method ModeIsFTRecord(raw: bytes) returns (r: Result<bool>)
    ensures match Decode(raw)
            case Err => r == Err
            case Ok(rec) => r == Ok(IsFT(rec.fields[FIELD_MODE]))
  {
    if |raw| < HEADER_SIZE || raw[0] != RECORD_VERSION { return Err; }
    var total := HEADER_SIZE;
    var lengths: seq<nat> := [];
    for i := 0 to FIELD_COUNT
      invariant |lengths| == i && total == HEADER_SIZE + LengthSum(raw, i)
      invariant forall j :: 0 <= j < i ==> lengths[j] == LengthAt(raw, j)
    {
      lengths := lengths + [LengthAt(raw, i)];
      total := total + LengthAt(raw, i);
    }
    if total != |raw| { return Err; }
    var dataOffset := HEADER_SIZE;
    for i := 0 to FIELD_MODE
      invariant dataOffset == HEADER_SIZE + LengthSum(raw, i)
    {
      dataOffset := dataOffset + lengths[i];
    }
    var modeLen := lengths[FIELD_MODE];
    LengthSumMono(raw, FIELD_MODE + 1, FIELD_COUNT);
    ghost var field := FieldAt(raw, FIELD_MODE);
    assert Decode(raw).value.fields[FIELD_MODE] == field == raw[dataOffset..dataOffset + modeLen];
    NotFT(field);
    if modeLen == 0 { return Ok(false); }
    var mode := raw[dataOffset..dataOffset + modeLen];
    if |mode| != 3 { return Ok(false); }
    ThreeBytes(mode);
    return Ok(UpperByte(mode[0]) == 0x46 && UpperByte(mode[1]) == 0x54
              && (UpperByte(mode[2]) == 0x38 || UpperByte(mode[2]) == 0x34));
  }

  lemma NotFT(mode: bytes)
    ensures |mode| != 3 ==> !IsFT(mode)
  {
  }

  lemma ThreeBytes(mode: bytes)
    requires |mode| == 3
    ensures IsFT(mode) <==> UpperByte(mode[0]) == 0x46 && UpperByte(mode[1]) == 0x54
                            && (UpperByte(mode[2]) == 0x38 || UpperByte(mode[2]) == 0x34)
  {
    assert ToUpper(mode) == [UpperByte(mode[0]), UpperByte(mode[1]), UpperByte(mode[2])];
  }

  // ---------------------------------------------------------------- encoding

  /** encodeRecord fills one buffer: fixed header, lengths, strings. */
  method EncodeRecord(r: Record) returns (buf: array<byte>)
    requires |r.fields| == FIELD_COUNT
    ensures fresh(buf) && buf[..] == Encoded(r)
  {
    hide Fixed;
    var total := HEADER_SIZE;
    for i := 0 to FIELD_COUNT
      invariant total == HEADER_SIZE + |Joined(r.fields[..i])|
    {
      assert r.fields[..i + 1][..i] == r.fields[..i];
      total := total + |r.fields[i]|;
    }
    assert r.fields[..FIELD_COUNT] == r.fields;
    buf := new byte[total];
    Put(buf, 0, Fixed(r));
    PutLengths(buf, r.fields);
    PutStrings(buf, r.fields);
    assert buf[..] == buf[..HEADER_SIZE + |Joined(r.fields)|];
  }

  method PutLengths(buf: array<byte>, fields: seq<bytes>)
    requires |fields| == FIELD_COUNT && buf.Length >= HEADER_SIZE
    modifies buf
    ensures buf[..HEADER_SIZE] == old(buf[..FIXED_HEADER_SIZE]) + LengthBytes(fields)
  {
    var offset := FIXED_HEADER_SIZE;
    for i := 0 to FIELD_COUNT
      invariant offset == FIXED_HEADER_SIZE + 2 * i
      invariant buf[..offset] == old(buf[..FIXED_HEADER_SIZE]) + LengthBytes(fields[..i])
    {
      assert fields[..i + 1][..i] == fields[..i];
      Put(buf, offset, BE(|fields[i]| % TWO16, 2));
      offset := offset + 2;
    }
    assert fields[..FIELD_COUNT] == fields;
  }

  method PutStrings(buf: array<byte>, fields: seq<bytes>)
    requires |fields| == FIELD_COUNT && buf.Length >= HEADER_SIZE + |Joined(fields)|
    modifies buf
    ensures buf[..HEADER_SIZE + |Joined(fields)|] == old(buf[..HEADER_SIZE]) + Joined(fields)
  {
    var writeOffset := HEADER_SIZE;
    for i := 0 to FIELD_COUNT
      invariant writeOffset == HEADER_SIZE + |Joined(fields[..i])|
      invariant |Joined(fields[..i])| <= |Joined(fields)|
      invariant buf[..writeOffset] == old(buf[..HEADER_SIZE]) + Joined(fields[..i])
    {
      assert fields[..i + 1][..i] == fields[..i];
      JoinedMono(fields, i + 1);
      Put(buf, writeOffset, fields[i]);
      writeOffset := writeOffset + |fields[i]|;
    }
    assert fields[..FIELD_COUNT] == fields;
  }

  lemma {:induction false} JoinedMono(fields: seq<bytes>, n: nat)
    requires n <= |fields|
    ensures |Joined(fields[..n])| <= |Joined(fields)|
    decreases |fields|
  {
    if n < |fields| {
      var m := |fields| - 1;
      assert fields[..m][..n] == fields[..n];
      JoinedMono(fields[..m], n);
    } else {
      assert fields[..n] == fields;
    }
  }

  // ---------------------------------------------------------------- round trip

  /** What the wire format can hold. */
  predicate Storable(r: Record) {
    && |r.fields| == FIELD_COUNT
    && (forall i :: 0 <= i < |r.fields| ==> |r.fields[i]| < TWO16)
    && -0x8000_0000 <= r.report < 0x8000_0000
    && 0 <= r.dxCQZone < TWO16 && 0 <= r.deCQZone < TWO16
    && 0 <= r.dxADIF < TWO32 && 0 <= r.deADIF < TWO32
  }

  lemma {:induction false} LengthBytesAt(fields: seq<bytes>, i: nat)
    requires i < |fields|
    ensures LengthBytes(fields)[2 * i..2 * i + 2] == BE(|fields[i]| % TWO16, 2)
  {
    var n := |fields| - 1;
    if i < n {
      LengthBytesAt(fields[..n], i);
      assert LengthBytes(fields)[2 * i..2 * i + 2] == LengthBytes(fields[..n])[2 * i..2 * i + 2];
    }
  }

  lemma EncodedLength(r: Record, i: nat)
    requires |r.fields| == FIELD_COUNT && i < FIELD_COUNT
    ensures |Encoded(r)| >= HEADER_SIZE
    ensures LengthAt(Encoded(r), i) == |r.fields[i]| % TWO16
  {
    hide Fixed, Joined;
    var raw := Encoded(r);
    var at := FIXED_HEADER_SIZE + 2 * i;
    LengthBytesAt(r.fields, i);
    assert raw[at..at + 2] == LengthBytes(r.fields)[2 * i..2 * i + 2];
    Pow256Values();
    FromBEInverse(|r.fields[i]| % TWO16, 2);
  }

  /** The lengths in the header never exceed the strings behind it, and fall short of
      them exactly when some string is too long. */
  lemma {:induction false} EncodedSums(r: Record, n: nat)
    requires |r.fields| == FIELD_COUNT && n <= FIELD_COUNT
    ensures |Encoded(r)| >= HEADER_SIZE
    ensures LengthSum(Encoded(r), n) <= |Joined(r.fields[..n])|
    ensures LengthSum(Encoded(r), n) == |Joined(r.fields[..n])| <==>
            forall i :: 0 <= i < n ==> |r.fields[i]| < TWO16
  {
    if n > 0 {
      hide Encoded;
      EncodedSums(r, n - 1);
      EncodedLength(r, n - 1);
      assert r.fields[..n][..n - 1] == r.fields[..n - 1];
    }
  }

  lemma {:induction false} JoinedPart(fields: seq<bytes>, i: nat)
    requires i < |fields|
    ensures |Joined(fields[..i])| + |fields[i]| == |Joined(fields[..i + 1])| <= |Joined(fields)|
    ensures Joined(fields)[|Joined(fields[..i])|..|Joined(fields[..i + 1])|] == fields[i]
    decreases |fields|
  {
    var n := |fields| - 1;
    assert fields[..i + 1][..i] == fields[..i];
    if i < n {
      assert fields[..n][..i] == fields[..i] && fields[..n][..i + 1] == fields[..i + 1];
      JoinedPart(fields[..n], i);
      var a, b := |Joined(fields[..i])|, |Joined(fields[..i + 1])|;
      assert Joined(fields)[a..b] == Joined(fields[..n])[a..b];
    } else {
      assert fields[..i + 1] == fields;
    }
  }

  lemma EncodedField(r: Record, i: nat)
    requires |r.fields| == FIELD_COUNT && i < FIELD_COUNT
    requires forall j :: 0 <= j < FIELD_COUNT ==> |r.fields[j]| < TWO16
    ensures |Encoded(r)| >= HEADER_SIZE && FieldAt(Encoded(r), i) == r.fields[i]
  {
    hide Fixed, Joined, LengthBytes;
    var raw := Encoded(r);
    EncodedSums(r, i);
    EncodedSums(r, i + 1);
    JoinedPart(r.fields, i);
    var a, b := |Joined(r.fields[..i])|, |Joined(r.fields[..i + 1])|;
    assert raw[HEADER_SIZE + a..HEADER_SIZE + b] == Joined(r.fields)[a..b];
  }

  /** The fixed header reads back clamped and truncated. */
  lemma EncodedScalars(r: Record)
    requires |r.fields| == FIELD_COUNT
    ensures |Encoded(r)| >= HEADER_SIZE && Encoded(r)[0] == RECORD_VERSION
    ensures Scalars(Encoded(r)) == r.(
              fields := [], report := ReportFrom(ReportBits(r.report)),
              dxCQZone := ClampUint16(r.dxCQZone), deCQZone := ClampUint16(r.deCQZone),
              dxADIF := AdifBits(r.dxADIF), deADIF := AdifBits(r.deADIF))
  {
    hide Joined, LengthBytes;
    var raw := Encoded(r);
    assert raw[..28] == Fixed(r);
    FixedSlices(raw, r);
    FlagBits(r);
  }

  lemma FixedSlices(raw: bytes, r: Record)
    requires |raw| >= 28 && raw[..28] == Fixed(r)
    ensures raw[0] == RECORD_VERSION && raw[1] == Flags(r) && raw[2] == r.ttl
    ensures FromBE(raw[4..12]) == r.freqBits && FromBE(raw[12..16]) == ReportBits(r.report)
    ensures FromBE(raw[16..18]) == ClampUint16(r.dxCQZone) && FromBE(raw[18..20]) == ClampUint16(r.deCQZone)
    ensures FromBE(raw[20..24]) == AdifBits(r.dxADIF) && FromBE(raw[24..28]) == AdifBits(r.deADIF)
  {
    hide Flags, ReportBits, ClampUint16, AdifBits, FromBE;
    var f := Fixed(r);
    assert raw[0] == f[0] && raw[1] == f[1] && raw[2] == f[2];
    assert raw[4..12] == f[4..12] == BE(r.freqBits, 8);
    assert raw[12..16] == f[12..16] == BE(ReportBits(r.report), 4);
    assert raw[16..18] == f[16..18] == BE(ClampUint16(r.dxCQZone), 2);
    assert raw[18..20] == f[18..20] == BE(ClampUint16(r.deCQZone), 2);
    assert raw[20..24] == f[20..24] == BE(AdifBits(r.dxADIF), 4);
    assert raw[24..28] == f[24..28] == BE(AdifBits(r.deADIF), 4);
    Pow256Values();
    FromBEInverse(r.freqBits, 8);
    FromBEInverse(ReportBits(r.report), 4);
    FromBEInverse(ClampUint16(r.dxCQZone), 2);
    FromBEInverse(ClampUint16(r.deCQZone), 2);
    FromBEInverse(AdifBits(r.dxADIF), 4);
    FromBEInverse(AdifBits(r.deADIF), 4);
  }

  lemma FlagBits(r: Record)
    ensures Flags(r) % 2 == 1 <==> r.hasReport
    ensures (Flags(r) / 2) % 2 == 1 <==> r.isHuman
    ensures (Flags(r) / 4) % 2 == 1 <==> r.dxGridDerived
    ensures (Flags(r) / 8) % 2 == 1 <==> r.deGridDerived
  {
  }

  /** Main codec result: decoding inverts encoding exactly on the storable records; a
      record with an overlong string does not decode at all. */
  lemma RoundTrip(r: Record)
    requires |r.fields| == FIELD_COUNT
    ensures Decode(Encoded(r)) == Ok(r) <==> Storable(r)
    ensures Decode(Encoded(r)).Err? <==> exists i :: 0 <= i < FIELD_COUNT && |r.fields[i]| >= TWO16
  {
    var raw := Encoded(r);
    EncodedWellFormed(r);
    EncodedScalars(r);
    hide Encoded, Scalars, WellFormed;
    if WellFormed(raw) {
      EncodedFields(r);
      TruncatedIff(r);
    }
  }

  lemma EncodedWellFormed(r: Record)
    requires |r.fields| == FIELD_COUNT
    ensures WellFormed(Encoded(r)) <==> forall i :: 0 <= i < FIELD_COUNT ==> |r.fields[i]| < TWO16
  {
    EncodedSums(r, FIELD_COUNT);
    EncodedScalars(r);
    assert r.fields[..FIELD_COUNT] == r.fields;
    assert |Encoded(r)| == HEADER_SIZE + |Joined(r.fields)|;
  }

  lemma EncodedFields(r: Record)
    requires |r.fields| == FIELD_COUNT && WellFormed(Encoded(r))
    ensures Decode(Encoded(r)).Ok? && Decode(Encoded(r)).value.fields == r.fields
  {
    hide Scalars, FieldAt, Encoded;
    EncodedWellFormed(r);
    forall i | 0 <= i < FIELD_COUNT ensures Decode(Encoded(r)).value.fields[i] == r.fields[i] { EncodedField(r, i); }
  }

  /** Clamping and truncation leave the numbers alone exactly when they are in range. */
  lemma TruncatedIff(r: Record)
    ensures ReportFrom(ReportBits(r.report)) == r.report <==> -0x8000_0000 <= r.report < 0x8000_0000
    ensures ClampUint16(r.dxCQZone) == r.dxCQZone <==> 0 <= r.dxCQZone < TWO16
    ensures ClampUint16(r.deCQZone) == r.deCQZone <==> 0 <= r.deCQZone < TWO16
    ensures AdifBits(r.dxADIF) == r.dxADIF <==> 0 <= r.dxADIF < TWO32
    ensures AdifBits(r.deADIF) == r.deADIF <==> 0 <= r.deADIF < TWO32
  {
  }
}
