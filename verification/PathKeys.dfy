/** Bucket keys and band indices of the path reliability store. The 16-bit fields of
    a key do not overlap, so shifts and ors are written as products and sums. */
module PathKeys {
  import opened Common
  import opened Text

  type CellID = uint16

  const INVALID_CELL: CellID := 0
  const TWO48 := 0x1_0000_0000_0000

  function PackKey(receiver: CellID, sender: CellID, band: uint16): (k: uint64) {
    if receiver == INVALID_CELL || sender == INVALID_CELL then 0
    else band * TWO48 + receiver * TWO32 + sender * TWO16
  }

  function PackCoarseKey(receiver: CellID, sender: CellID, band: uint16): (k: uint64) {
    if receiver == INVALID_CELL || sender == INVALID_CELL then 0
    else band * TWO32 + receiver * TWO16 + sender
  }

  /** The low field tells the two families apart. */
  predicate IsCoarse(k: uint64) { k % TWO16 != 0 }

  /** The band field where the purge and the statistics read it. */
  function BandField(k: uint64): (b: uint16) {
    if IsCoarse(k) then (k / TWO32) % TWO16 else (k / TWO48) % TWO16
  }

  lemma FineFields(r: CellID, s: CellID, b: uint16)
    requires r != INVALID_CELL && s != INVALID_CELL
    ensures var k := PackKey(r, s, b);
            k != 0 && !IsCoarse(k) && BandField(k) == b
            && (k / TWO32) % TWO16 == r && (k / TWO16) % TWO16 == s
  {
    var k := PackKey(r, s, b);
    assert k == (b * TWO32 + r * TWO16 + s) * TWO16;
    assert k / TWO16 == b * TWO32 + r * TWO16 + s;
    assert k / TWO32 == b * TWO16 + r;
    assert k / TWO48 == b;
  }

  lemma CoarseFields(r: CellID, s: CellID, b: uint16)
    requires r != INVALID_CELL && s != INVALID_CELL
    ensures var k := PackCoarseKey(r, s, b);
            k != 0 && IsCoarse(k) && BandField(k) == b
            && (k / TWO16) % TWO16 == r && k % TWO16 == s
  {
    var k := PackCoarseKey(r, s, b);
    assert k == (b * TWO16 + r) * TWO16 + s;
    assert k / TWO16 == b * TWO16 + r;
    assert k / TWO32 == b;
  }

  /** Fine and coarse keys of valid cells are injective and never coincide. */
  lemma KeysInjective(r: CellID, s: CellID, b: uint16, r': CellID, s': CellID, b': uint16)
    requires r != INVALID_CELL && s != INVALID_CELL && r' != INVALID_CELL && s' != INVALID_CELL
    ensures PackKey(r, s, b) == PackKey(r', s', b') <==> r == r' && s == s' && b == b'
    ensures PackCoarseKey(r, s, b) == PackCoarseKey(r', s', b') <==> r == r' && s == s' && b == b'
    ensures PackKey(r, s, b) != PackCoarseKey(r', s', b')
  {
    FineFields(r, s, b);
    FineFields(r', s', b');
    CoarseFields(r, s, b);
    CoarseFields(r', s', b');
  }

  // ---------------------------------------------------------------- bands

  datatype BandIndex = BandIndex(bandToIdx: map<bytes, uint16>, idxToBand: seq<bytes>)

  function NormalizeBand(b: bytes): (r: bytes) { ToLower(TrimSpace(b)) }

  predicate Distinct(s: seq<bytes>) {
    forall i, j :: 0 <= i < j < |s| ==> s[i] != s[j]
  }

  /** The listed bands are distinct, normalized and indexed by their 16-bit position. */
  ghost predicate IndexOk(bi: BandIndex) {
    && Distinct(bi.idxToBand)
    && (forall i :: 0 <= i < |bi.idxToBand| ==>
          NormalizeBand(bi.idxToBand[i]) == bi.idxToBand[i]
          && bi.idxToBand[i] in bi.bandToIdx && bi.bandToIdx[bi.idxToBand[i]] == i % TWO16)
    && (forall b :: b in bi.bandToIdx ==> b in bi.idxToBand)
  }

  /** The nonempty normalized bands of a configuration. */
  function BandSet(bands: seq<bytes>): (s: set<bytes>) {
    set i | 0 <= i < |bands| && NormalizeBand(bands[i]) != [] :: NormalizeBand(bands[i])
  }

  lemma BandSetStep(bands: seq<bytes>, i: nat)
    requires i < |bands|
    ensures BandSet(bands[..i + 1]) ==
            BandSet(bands[..i]) + (if NormalizeBand(bands[i]) == [] then {} else {NormalizeBand(bands[i])})
  {
    hide NormalizeBand;
    var a, b := bands[..i + 1], bands[..i];
    assert a[i] == bands[i] && forall j :: 0 <= j < i ==> a[j] == b[j];
    forall x | x in BandSet(b) ensures x in BandSet(a) {
      var j :| 0 <= j < i && NormalizeBand(b[j]) == x;
      assert NormalizeBand(a[j]) == x;
    }
    if NormalizeBand(bands[i]) != [] { assert NormalizeBand(a[i]) in BandSet(a); }
  }

  lemma IndexSnoc(bi: BandIndex, key: bytes)
    requires IndexOk(bi) && key !in bi.bandToIdx && NormalizeBand(key) == key
    ensures IndexOk(BandIndex(bi.bandToIdx[key := |bi.idxToBand| % TWO16], bi.idxToBand + [key]))
  {
    hide NormalizeBand;
    var r := BandIndex(bi.bandToIdx[key := |bi.idxToBand| % TWO16], bi.idxToBand + [key]);
    forall i | 0 <= i < |r.idxToBand|
      ensures NormalizeBand(r.idxToBand[i]) == r.idxToBand[i]
              && r.idxToBand[i] in r.bandToIdx && r.bandToIdx[r.idxToBand[i]] == i % TWO16
    {
      if i < |bi.idxToBand| { assert bi.idxToBand[i] in bi.bandToIdx; }
    }
    assert forall i :: 0 <= i < |bi.idxToBand| ==> bi.idxToBand[i] != key;
    forall b | b in r.bandToIdx ensures b in r.idxToBand {
      if b != key { assert b in bi.idxToBand; }
    }
  }

  /** NewBandIndex lists every nonempty normalized band once. */
  method NewBandIndex(bands: seq<bytes>) returns (bi: BandIndex)
    ensures IndexOk(bi)
    ensures forall b :: b in bi.idxToBand <==> b in BandSet(bands)
  {
    hide NormalizeBand, BandSet, IndexOk;
    var m: map<bytes, uint16> := map[];
    var idxToBand: seq<bytes> := [];
    EmptyIndex();
    for i := 0 to |bands|
      invariant IndexOk(BandIndex(m, idxToBand))
      invariant forall b :: b in idxToBand <==> b in BandSet(bands[..i])
    {
      var key := NormalizeBand(bands[i]);
      BandIdempotent(bands[i]);
      BandSetStep(bands, i);
      if key == [] { continue; }
      IndexMembers(BandIndex(m, idxToBand), key);
      if key !in m {
        IndexSnoc(BandIndex(m, idxToBand), key);
        m := m[key := |idxToBand| % TWO16];
        idxToBand := idxToBand + [key];
      }
    }
    assert bands[..|bands|] == bands;
    bi := BandIndex(m, idxToBand);
  }

  lemma EmptyIndex()
    ensures IndexOk(BandIndex(map[], [])) && BandSet([]) == {}
  {
  }

  lemma IndexMembers(bi: BandIndex, key: bytes)
    requires IndexOk(bi)
    ensures key in bi.bandToIdx <==> key in bi.idxToBand
  {
    hide NormalizeBand;
  }

  lemma BandIdempotent(b: bytes)
    ensures NormalizeBand(NormalizeBand(b)) == NormalizeBand(b)
  {
    LowerTrimIdempotent(b);
  }

  function LookupBand(bi: BandIndex, band: bytes): (r: Option<uint16>) {
    var key := NormalizeBand(band);
    if key in bi.bandToIdx then Some(bi.bandToIdx[key]) else None
  }

  /** A known band's index names it in the list: exact while the list fits 16 bits. */
  lemma LookupNames(bi: BandIndex, band: bytes)
    requires IndexOk(bi) && |bi.idxToBand| <= TWO16
    ensures LookupBand(bi, band).Some? ==>
              LookupBand(bi, band).value < |bi.idxToBand|
              && bi.idxToBand[LookupBand(bi, band).value] == NormalizeBand(band)
  {
    hide NormalizeBand;
    if LookupBand(bi, band).Some? {
      var key := NormalizeBand(band);
      assert key in bi.idxToBand;
      var i :| 0 <= i < |bi.idxToBand| && bi.idxToBand[i] == key;
      assert bi.bandToIdx[bi.idxToBand[i]] == i % TWO16;
    }
  }

  /** Two bands share an index exactly when there are more than 65536 of them. */
  lemma IndicesDistinctIff(bi: BandIndex)
    requires IndexOk(bi)
    ensures |bi.idxToBand| <= TWO16 <==>
            forall i, j :: 0 <= i < j < |bi.idxToBand| ==>
              bi.bandToIdx[bi.idxToBand[i]] != bi.bandToIdx[bi.idxToBand[j]]
  {
    hide NormalizeBand;
    if |bi.idxToBand| > TWO16 {
      assert bi.bandToIdx[bi.idxToBand[0]] == 0 == bi.bandToIdx[bi.idxToBand[TWO16]];
    }
  }
}
