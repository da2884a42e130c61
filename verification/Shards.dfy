/** A table split over shards by the low bits of its keys stands for one map. */
module Shards {
  import opened Common

  const SHARDS := 64

  type Table<V> = map<uint64, V>

  function Get<V>(m: Table<V>, k: uint64): (v: Option<V>) { if k in m then Some(m[k]) else None }

  function Put<V>(m: Table<V>, k: uint64, v: V): (r: Table<V>) { m[k := v] }

  /** Every key sits in the shard its residue names. */
  ghost predicate Sharded<V(!new)>(ss: seq<Table<V>>) {
    |ss| == SHARDS && forall i, k :: 0 <= i < SHARDS && k in ss[i] ==> k % SHARDS == i
  }

  /** The one map the shards stand for. */
  ghost function Flat<V(!new)>(ss: seq<Table<V>>): (m: Table<V>)
    requires Sharded(ss)
  {
    map k | k in (set i, k | 0 <= i < SHARDS && k in ss[i] :: k) :: ss[k % SHARDS][k]
  }

  lemma ShardCount<V(!new)>(ss: seq<Table<V>>)
    requires Sharded(ss)
    ensures |ss| == SHARDS
  {
  }

  lemma FlatGet<V(!new)>(ss: seq<Table<V>>, k: uint64)
    requires Sharded(ss)
    ensures Get(Flat(ss), k) == Get(ss[k % SHARDS], k)
  {
  }

  lemma SameGet<V>(a: Table<V>, b: Table<V>)
    requires forall j: uint64 :: Get(a, j) == Get(b, j)
    ensures a == b
  {
    forall j: uint64 ensures (j in a <==> j in b) && (j in a ==> a[j] == b[j]) { assert Get(a, j) == Get(b, j); }
  }

  /** Shards that answer every key as one map does stand for that map. */
  lemma FlatIs<V(!new)>(ss: seq<Table<V>>, m: Table<V>)
    requires Sharded(ss) && forall j: uint64 :: Get(ss[j % SHARDS], j) == Get(m, j)
    ensures Flat(ss) == m
  {
    hide Flat;
    forall j: uint64 ensures Get(Flat(ss), j) == Get(m, j) { FlatGet(ss, j); }
    SameGet(Flat(ss), m);
  }

  lemma FlatEmpty<V(!new)>(ss: seq<Table<V>>)
    requires |ss| == SHARDS && forall i :: 0 <= i < SHARDS ==> ss[i] == map[]
    ensures Sharded(ss) && Flat(ss) == map[]
  {
  }

  lemma FlatSet<V(!new)>(ss: seq<Table<V>>, k: uint64, v: V)
    requires Sharded(ss)
    ensures var i := k % SHARDS;
            Sharded(ss[i := Put(ss[i], k, v)]) && Flat(ss[i := Put(ss[i], k, v)]) == Put(Flat(ss), k, v)
  {
    var i := k % SHARDS;
    var r := ss[i := Put(ss[i], k, v)];
    forall j: uint64 ensures Get(r[j % SHARDS], j) == Get(Put(Flat(ss), k, v), j) { FlatGet(ss, j); }
    FlatIs(r, Put(Flat(ss), k, v));
  }

  // ---------------------------------------------------------------- counting

  ghost function CountUpTo<V>(ss: seq<Table<V>>, n: nat): (c: nat)
    requires n <= |ss|
  {
    if n == 0 then 0 else CountUpTo(ss, n - 1) + |ss[n - 1]|
  }

  lemma {:induction false} CountSame<V>(a: seq<Table<V>>, b: seq<Table<V>>, n: nat)
    requires n <= |a| && n <= |b| && forall j :: 0 <= j < n ==> a[j] == b[j]
    ensures CountUpTo(a, n) == CountUpTo(b, n)
  {
    if n > 0 { CountSame(a, b, n - 1); }
  }

  /** The keys that live in the first n shards. */
  ghost function KeysUpTo<V>(ss: seq<Table<V>>, n: nat): (s: set<uint64>)
    requires n <= |ss|
  {
    if n == 0 then {} else KeysUpTo(ss, n - 1) + ss[n - 1].Keys
  }

  lemma {:induction false} KeysUpToIff<V(!new)>(ss: seq<Table<V>>, n: nat, k: uint64)
    requires Sharded(ss) && n <= SHARDS
    ensures k in KeysUpTo(ss, n) <==> k % SHARDS < n && k in ss[k % SHARDS]
  {
    if n > 0 { KeysUpToIff(ss, n - 1, k); }
  }

  lemma {:induction false} CountKeys<V(!new)>(ss: seq<Table<V>>, n: nat)
    requires Sharded(ss) && n <= SHARDS
    ensures |KeysUpTo(ss, n)| == CountUpTo(ss, n)
  {
    if n > 0 {
      CountKeys(ss, n - 1);
      var shard, below := ss[n - 1], KeysUpTo(ss, n - 1);
      forall k: uint64 | k in shard ensures k !in below { KeysUpToIff(ss, n - 1, k); }
      assert below !! shard.Keys;
    }
  }

  /** The shard sizes add up to the size of the one map. */
  lemma CountAll<V(!new)>(ss: seq<Table<V>>)
    requires Sharded(ss)
    ensures |Flat(ss)| == CountUpTo(ss, SHARDS)
  {
    CountKeys(ss, SHARDS);
    forall k: uint64 ensures k in Flat(ss) <==> k in KeysUpTo(ss, SHARDS) { KeysUpToIff(ss, SHARDS, k); }
    assert Flat(ss).Keys == KeysUpTo(ss, SHARDS);
  }
}
