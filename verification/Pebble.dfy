/** The ordered key/value store underneath both persistent components: a finite
    map, batches that commit as one step, and iterators that walk a snapshot of
    a key range in ascending byte order. */
module Pebble {
  import opened Common
  import opened Bytes

  type DB = map<bytes, bytes>

  datatype Op = Set(key: bytes, value: bytes) | Delete(key: bytes)

  function ApplyOp(db: DB, op: Op): (r: DB) {
    match op
    case Set(k, v) => db[k := v]
    case Delete(k) => db - {k}
  }

  /** The batch is applied in order, all or nothing. */
  function Commit(db: DB, batch: seq<Op>): (r: DB) {
    if batch == [] then db
    else ApplyOp(Commit(db, batch[..|batch| - 1]), batch[|batch| - 1])
  }

  lemma CommitSnoc(db: DB, batch: seq<Op>, op: Op)
    ensures Commit(db, batch + [op]) == ApplyOp(Commit(db, batch), op)
  {
    assert (batch + [op])[..|batch|] == batch;
  }

  // ---------------------------------------------------------------- iterators

  predicate Ascending(s: seq<bytes>) {
    forall i, j :: 0 <= i < j < |s| ==> LexLess(s[i], s[j])
  }

  predicate IsLeast(k: bytes, s: set<bytes>) {
    k in s && forall j :: j in s ==> j == k || LexLess(k, j)
  }

  lemma LeastExists(s: set<bytes>)
    requires s != {}
    ensures exists k :: IsLeast(k, s)
  {
    var x :| x in s;
    if s == {x} {
      assert IsLeast(x, s);
    } else {
      LeastExists(s - {x});
      var m :| IsLeast(m, s - {x});
      LexTotal(x, m);
      if LexLess(x, m) {
        forall j | j in s ensures j == x || LexLess(x, j) {
          if j != x && j != m { LexTransitive(x, m, j); }
        }
        assert IsLeast(x, s);
      } else {
        assert IsLeast(m, s);
      }
    }
  }

  lemma LeastUnique(s: set<bytes>, a: bytes, b: bytes)
    requires IsLeast(a, s) && IsLeast(b, s)
    ensures a == b
  {
    if a != b { LexAsymmetric(a, b); }
  }

  function Least(s: set<bytes>): (k: bytes)
    requires s != {}
    ensures IsLeast(k, s)
  {
    LeastExists(s);
    assert forall a, b | IsLeast(a, s) && IsLeast(b, s) :: a == b by {
      forall a, b | IsLeast(a, s) && IsLeast(b, s) ensures a == b { LeastUnique(s, a, b); }
    }
    var k :| k in s && IsLeast(k, s);
    k
  }

  function Sorted(s: set<bytes>): (r: seq<bytes>)
    ensures Ascending(r)
    ensures forall k :: k in r <==> k in s
    ensures |r| == |s|
  {
    if s == {} then [] else
      var k := Least(s);
      var rest := Sorted(s - {k});
      assert forall j :: 0 <= j < |rest| ==> rest[j] in rest;
      [k] + rest
  }

  /** The keys an iterator created now with these bounds will visit, in order. */
  function Scan(db: DB, lower: bytes, upper: Option<bytes>): (keys: seq<bytes>)
    ensures Ascending(keys)
    ensures forall k :: k in keys <==> k in db && InRange(k, lower, upper)
  {
    Sorted(set k | k in db && InRange(k, lower, upper))
  }

  lemma AscendingDistinct(s: seq<bytes>, i: nat, j: nat)
    requires Ascending(s) && i < j < |s|
    ensures s[i] != s[j]
  {
    LexIrreflexive(s[i]);
  }
}
