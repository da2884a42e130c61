/** Byte-string order, big-endian integers and key-range bounds.

    Both stores keep their rows in one ordered key space, so every range scan
    rests on how big-endian fields and prefixes compare byte by byte. */
module Bytes {
  import opened Common

  // ---------------------------------------------------------------- order

  /** bytes.Compare(a, b) < 0. */
  predicate LexLess(a: bytes, b: bytes) {
    if b == [] then false
    else if a == [] then true
    else a[0] < b[0] || (a[0] == b[0] && LexLess(a[1..], b[1..]))
  }

  lemma {:induction false} LexIrreflexive(a: bytes)
    ensures !LexLess(a, a)
  {
    if a != [] { LexIrreflexive(a[1..]); }
  }

  lemma {:induction false} LexTransitive(a: bytes, b: bytes, c: bytes)
    requires LexLess(a, b) && LexLess(b, c)
    ensures LexLess(a, c)
    decreases |b|
  {
    if a != [] && a[0] == b[0] && b[0] == c[0] {
      LexTransitive(a[1..], b[1..], c[1..]);
    }
  }

  lemma {:induction false} LexTotal(a: bytes, b: bytes)
    ensures a == b || LexLess(a, b) || LexLess(b, a)
  {
    if a != [] && b != [] && a[0] == b[0] {
      LexTotal(a[1..], b[1..]);
      assert a == [a[0]] + a[1..] && b == [b[0]] + b[1..];
    }
  }

  lemma LexAsymmetric(a: bytes, b: bytes)
    requires LexLess(a, b)
    ensures !LexLess(b, a) && a != b
  {
    LexIrreflexive(a);
    if LexLess(b, a) { LexTransitive(a, b, a); }
  }

  /** Fields of equal width decide the order before what follows them does. */
  lemma {:induction false} LexConcat(a: bytes, x: bytes, b: bytes, y: bytes)
    requires |a| == |b|
    ensures LexLess(a + x, b + y) <==> LexLess(a, b) || (a == b && LexLess(x, y))
  {
    if a == [] {
      assert a + x == x && b + y == y;
    } else {
      assert (a + x)[1..] == a[1..] + x && (b + y)[1..] == b[1..] + y;
      LexConcat(a[1..], x, b[1..], y);
      assert a == [a[0]] + a[1..] && b == [b[0]] + b[1..];
    }
  }

  /** A string is never below its own prefix. */
  lemma {:induction false} PrefixNotAbove(p: bytes, k: bytes)
    requires p <= k
    ensures !LexLess(k, p)
  {
    if p != [] { PrefixNotAbove(p[1..], k[1..]); }
  }

  // ---------------------------------------------------------------- big endian

  function Pow256(w: nat): (p: nat)
    ensures p > 0
  {
    if w == 0 then 1 else 256 * Pow256(w - 1)
  }

  lemma Pow256Values()
    ensures Pow256(2) == TWO16 && Pow256(4) == TWO32 && Pow256(8) == TWO64
  {
    assert Pow256(4) == 256 * Pow256(3) && Pow256(3) == 256 * Pow256(2);
    assert Pow256(6) == 256 * Pow256(5) && Pow256(5) == 256 * Pow256(4);
    assert Pow256(8) == 256 * Pow256(7) && Pow256(7) == 256 * Pow256(6);
  }

  /** binary.BigEndian.PutUint16/32/64 for widths 2, 4 and 8. */
  function BE(n: nat, w: nat): (s: bytes)
    ensures |s| == w
  {
    if w == 0 then [] else BE(n / 256, w - 1) + [n % 256]
  }

  /** binary.BigEndian.Uint16/32/64. */
  function FromBE(s: bytes): (n: nat)
    ensures n < Pow256(|s|)
  {
    if s == [] then 0 else
      assert |s[..|s| - 1]| == |s| - 1;
      FromBE(s[..|s| - 1]) * 256 + s[|s| - 1]
  }

  lemma {:induction false} FromBEInverse(n: nat, w: nat)
    requires n < Pow256(w)
    ensures FromBE(BE(n, w)) == n
  {
    if w != 0 {
      QuotientBelow(n, Pow256(w - 1));
      FromBEInverse(n / 256, w - 1);
      assert BE(n, w)[..w - 1] == BE(n / 256, w - 1);
    }
  }

  lemma QuotientBelow(n: nat, p: nat)
    requires n < 256 * p
    ensures n / 256 < p && n == n / 256 * 256 + n % 256
  {
  }

  lemma {:induction false} BEInverse(s: bytes)
    ensures BE(FromBE(s), |s|) == s
  {
    if s != [] {
      BEInverse(s[..|s| - 1]);
      assert s == s[..|s| - 1] + [s[|s| - 1]];
    }
  }

  /** On fields of one width, byte order is numeric order. */
  lemma {:induction false} BEOrder(a: bytes, b: bytes)
    requires |a| == |b|
    ensures LexLess(a, b) <==> FromBE(a) < FromBE(b)
  {
    if a != [] {
      var n := |a| - 1;
      BEOrder(a[..n], b[..n]);
      LexConcat(a[..n], [a[n]], b[..n], [b[n]]);
      assert a == a[..n] + [a[n]] && b == b[..n] + [b[n]];
      if FromBE(a[..n]) == FromBE(b[..n]) {
        BEInverse(a[..n]);
        BEInverse(b[..n]);
      }
      LexSingle(a[n], b[n]);
    }
  }

  lemma LexSingle(x: byte, y: byte)
    ensures LexLess([x], [y]) <==> x < y
  {
    assert [x][1..] == [] && [y][1..] == [];
  }

  /** Eight-byte keys sort by their unsigned value, whatever follows them. */
  lemma BE8Order(m: uint64, x: bytes, n: uint64, y: bytes)
    ensures LexLess(BE(m, 8) + x, BE(n, 8) + y) <==> m < n || (m == n && LexLess(x, y))
    ensures BE(m, 8) == BE(n, 8) <==> m == n
  {
    Pow256Values();
    FromBEInverse(m, 8);
    FromBEInverse(n, 8);
    BEOrder(BE(m, 8), BE(n, 8));
    LexConcat(BE(m, 8), x, BE(n, 8), y);
  }

  /** Copies s into the buffer at the cursor. */
  method Put(buf: array<byte>, at: nat, s: bytes)
    requires at + |s| <= buf.Length
    modifies buf
    ensures buf[..at + |s|] == old(buf[..at]) + s
  {
    var i := 0;
    while i < |s|
      invariant 0 <= i <= |s|
      invariant buf[..at + i] == old(buf[..at]) + s[..i]
    {
      buf[at + i] := s[i];
      assert buf[..at + i + 1] == buf[..at + i] + [s[i]];
      assert s[..i + 1] == s[..i] + [s[i]];
      i := i + 1;
    }
    assert s[..i] == s;
  }

  // ---------------------------------------------------------------- ranges

  /** A Pebble iterator range: lower inclusive, upper exclusive, none when nil. */
  predicate InRange(k: bytes, lower: bytes, upper: Option<bytes>) {
    !LexLess(k, lower) && (upper.Some? ==> LexLess(k, upper.value))
  }

  predicate AllFF(s: bytes) {
    forall i :: 0 <= i < |s| ==> s[i] == 0xFF
  }

  lemma {:induction false} AllFFBound(p: bytes, k: bytes)
    requires AllFF(p) && !LexLess(k, p)
    ensures p <= k
  {
    if p != [] {
      assert p[0] == 0xFF;
      AllFFBound(p[1..], k[1..]);
      assert p == [p[0]] + p[1..] && k == [k[0]] + k[1..];
    }
  }

  /** Incrementing the last byte below 0xFF and cutting there bounds the prefix exactly. */
  lemma {:induction false} IncrementBound(p: bytes, i: nat, k: bytes)
    requires i < |p| && p[i] < 0xFF && AllFF(p[i + 1..])
    ensures p <= k <==> InRange(k, p, Some(p[..i] + [p[i] + 1]))
  {
    var u: bytes := p[..i] + [p[i] + 1];
    if k == [] {
    } else if i == 0 {
      assert u == [p[0] + 1] && u[1..] == [] && p[i + 1..] == p[1..];
      assert !LexLess(k[1..], u[1..]);
      assert p <= k ==> p[0] == k[0];
      if p[0] == k[0] {
        if !LexLess(k, p) { AllFFBound(p[1..], k[1..]); }
        if p <= k { PrefixNotAbove(p, k); }
        assert p == [p[0]] + p[1..] && k == [k[0]] + k[1..];
      }
    } else {
      assert u[0] == p[0] && u[1..] == p[1..][..i - 1] + [p[1..][i - 1] + 1];
      assert p[1..][i..] == p[i + 1..];
      IncrementBound(p[1..], i - 1, k[1..]);
      assert p == [p[0]] + p[1..] && k == [k[0]] + k[1..];
    }
  }

  /** prefixUpperBound: the half-open range it closes holds exactly the keys that
      carry the prefix, and no finite bound exists when every byte is 0xFF. */
  method PrefixUpperBound(prefix: bytes) returns (upper: Option<bytes>)
    ensures upper.None? <==> AllFF(prefix)
    ensures forall k: bytes :: prefix <= k <==> InRange(k, prefix, upper)
  {
    var i := |prefix|;
    while i > 0
      invariant 0 <= i <= |prefix|
      invariant AllFF(prefix[i..])
    {
      i := i - 1;
      if prefix[i] != 0xFF {
        upper := Some(prefix[..i] + [prefix[i] + 1]);
        forall k: bytes ensures prefix <= k <==> InRange(k, prefix, upper) {
          IncrementBound(prefix, i, k);
        }
        return;
      }
    }
    assert prefix[0..] == prefix;
    upper := None;
    forall k: bytes ensures prefix <= k <==> InRange(k, prefix, upper) {
      if !LexLess(k, prefix) { AllFFBound(prefix, k); }
      if prefix <= k { PrefixNotAbove(prefix, k); }
    }
  }
}
