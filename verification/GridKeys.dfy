/** The three key families of the grid store: records, the updated-at index and
    the persisted count. */
module GridKeys {
  import opened Common
  import opened Bytes

  const CALL_PREFIX: bytes := [0x63, 0x7C]      // "c|"
  const UPDATED_PREFIX: bytes := [0x75, 0x7C]   // "u|"
  const META_COUNT_KEY: bytes := [0x6D, 0x65, 0x74, 0x61, 0x7C, 0x63, 0x6F, 0x75, 0x6E, 0x74]  // "meta|count"

  function CallKey(call: bytes): (k: bytes)
    ensures |k| == 2 + |call| && k[0] == 0x63 && k[2..] == call
  {
    CALL_PREFIX + call
  }

  function ParseCallKey(key: bytes): (r: Option<bytes>) {
    if |key| <= 2 || !(CALL_PREFIX <= key) then None else Some(key[2..])
  }

  function UpdatedKey(t: int64, call: bytes): (k: bytes)
    ensures |k| == 10 + |call| && k[0] == 0x75
  {
    UPDATED_PREFIX + BE(ToU64(t), 8) + call
  }

  function ParseUpdatedKey(key: bytes): (r: Option<(int64, bytes)>) {
    if |key| <= 10 || !(UPDATED_PREFIX <= key) then None else
      Pow256Values();
      Some((ToI64(FromBE(key[2..10])), key[10..]))
  }

  function UpdatedUpperBound(cutoff: int64): (r: Option<bytes>) {
    if cutoff == MAX_INT64 then None else Some(UpdatedKey(cutoff + 1, []))
  }

  lemma ParseCallKeyIff(key: bytes, call: bytes)
    ensures ParseCallKey(key) == Some(call) <==> call != [] && key == CallKey(call)
  {
    if ParseCallKey(key) == Some(call) {
      assert key == key[..2] + key[2..];
      assert key[..2] == CALL_PREFIX;
    }
  }

  lemma UpdatedKeyParts(t: int64, call: bytes)
    ensures UpdatedKey(t, call)[2..10] == BE(ToU64(t), 8)
    ensures UpdatedKey(t, call)[10..] == call
    ensures UPDATED_PREFIX <= UpdatedKey(t, call)
    ensures ToI64(FromBE(BE(ToU64(t), 8))) == t
  {
    Pow256Values();
    FromBEInverse(ToU64(t), 8);
  }

  lemma ParseUpdatedKeyIff(key: bytes, t: int64, call: bytes)
    ensures ParseUpdatedKey(key) == Some((t, call)) <==> call != [] && key == UpdatedKey(t, call)
  {
    UpdatedKeyParts(t, call);
    if ParseUpdatedKey(key) == Some((t, call)) {
      Pow256Values();
      BEInverse(key[2..10]);
      assert ToU64(t) == FromBE(key[2..10]);
      assert key == key[..2] + key[2..10] + key[10..];
      assert key[..2] == UPDATED_PREFIX;
    }
  }

  lemma UpdatedKeyInjective(t: int64, c: bytes, u: int64, d: bytes)
    ensures UpdatedKey(t, c) == UpdatedKey(u, d) <==> t == u && c == d
  {
    UpdatedKeyParts(t, c);
    UpdatedKeyParts(u, d);
  }

  lemma CallKeyInjective(c: bytes, d: bytes)
    ensures CallKey(c) == CallKey(d) <==> c == d
  {
  }

  lemma FamiliesDisjoint(t: int64, c: bytes, d: bytes)
    ensures CallKey(c) != UpdatedKey(t, d) && CallKey(c) != META_COUNT_KEY && UpdatedKey(t, d) != META_COUNT_KEY
  {
    assert META_COUNT_KEY[0] == 0x6D;
  }

  /** The instants a purge at this cutoff reaches: index keys hold the unsigned
      form, so a negative instant lies past every finite bound. */
  predicate Reached(t: int64, cutoff: int64) {
    cutoff == MAX_INT64 || 0 <= t <= cutoff
  }

  /** The purge range covers exactly the index keys of the reached instants,
      for every call string. */
  lemma PurgeRange(t: int64, call: bytes, cutoff: int64)
    requires cutoff > 0
    ensures InRange(UpdatedKey(t, call), UPDATED_PREFIX, UpdatedUpperBound(cutoff)) <==> Reached(t, cutoff)
  {
    UpdatedKeyParts(t, call);
    PrefixNotAbove(UPDATED_PREFIX, UpdatedKey(t, call));
    if cutoff != MAX_INT64 {
      var u := cutoff + 1;
      assert UpdatedKey(t, call) == UPDATED_PREFIX + (BE(ToU64(t), 8) + call);
      assert UpdatedKey(u, []) == UPDATED_PREFIX + (BE(ToU64(u), 8) + []);
      LexConcat(UPDATED_PREFIX, BE(ToU64(t), 8) + call, UPDATED_PREFIX, BE(ToU64(u), 8) + []);
      LexIrreflexive(UPDATED_PREFIX);
      BE8Order(ToU64(t), call, ToU64(u), []);
    }
  }

  /** No record and no count key lies in a purge range. */
  lemma PurgeRangeSkipsOthers(key: bytes, upper: Option<bytes>)
    requires key != [] && key[0] < 0x75
    ensures !InRange(key, UPDATED_PREFIX, upper)
  {
  }
}
