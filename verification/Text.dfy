/** ASCII trimming and case mapping (strings.TrimSpace, ToUpper, ToLower). */
module Text {
  import opened Common

  predicate IsSpace(b: byte) {
    9 <= b <= 13 || b == 32
  }

  function TrimLeft(s: bytes): (r: bytes)
    ensures |r| <= |s|
    ensures r != [] ==> !IsSpace(r[0])
  {
    if s == [] || !IsSpace(s[0]) then s else TrimLeft(s[1..])
  }

  function TrimRight(s: bytes): (r: bytes)
    ensures r <= s
    ensures r != [] ==> !IsSpace(r[|r| - 1])
    ensures forall i :: |r| <= i < |s| ==> IsSpace(s[i])
  {
    if s == [] || !IsSpace(s[|s| - 1]) then s else TrimRight(s[..|s| - 1])
  }

  function TrimSpace(s: bytes): (r: bytes) {
    TrimRight(TrimLeft(s))
  }

  function UpperByte(b: byte): (r: byte) {
    if 'a' as int <= b <= 'z' as int then b - 32 else b
  }

  function LowerByte(b: byte): (r: byte) {
    if 'A' as int <= b <= 'Z' as int then b + 32 else b
  }

  function ToUpper(s: bytes): (r: bytes)
    ensures |r| == |s|
  {
    seq(|s|, i requires 0 <= i < |s| => UpperByte(s[i]))
  }

  function ToLower(s: bytes): (r: bytes)
    ensures |r| == |s|
  {
    seq(|s|, i requires 0 <= i < |s| => LowerByte(s[i]))
  }

  /** A string is trimmed when neither end is a space. */
  predicate Trimmed(s: bytes) {
    s != [] ==> !IsSpace(s[0]) && !IsSpace(s[|s| - 1])
  }

  lemma TrimSpaceTrims(s: bytes)
    ensures Trimmed(TrimSpace(s))
    ensures Trimmed(s) ==> TrimSpace(s) == s
  {
    var l := TrimLeft(s);
    assert TrimRight(l) <= l;
  }

  /** Lower-casing a trimmed string reaches a fixed point of the normalization. */
  lemma LowerTrimIdempotent(s: bytes)
    ensures ToLower(TrimSpace(ToLower(TrimSpace(s)))) == ToLower(TrimSpace(s))
  {
    TrimSpaceTrims(s);
    var t := TrimSpace(s);
    assert Trimmed(ToLower(t));
    TrimSpaceTrims(ToLower(t));
  }

  // ---------------------------------------------------------------- case and padding

  /** Upper-casing changes exactly the letters a to z, each to its capital. */
  lemma UpperExact(s: bytes, i: nat)
    requires i < |s|
    ensures ToUpper(s)[i] == if 97 <= s[i] <= 122 then s[i] - 32 else s[i]
    ensures ToLower(s)[i] == if 65 <= s[i] <= 90 then s[i] + 32 else s[i]
  {
  }

  lemma UpperLower(s: bytes)
    ensures ToUpper(ToLower(s)) == ToUpper(s)
  {
  }

  lemma {:induction false} TrimLeftLower(s: bytes)
    ensures TrimLeft(ToLower(s)) == ToLower(TrimLeft(s))
  {
    if s != [] && IsSpace(s[0]) {
      TrimLeftLower(s[1..]);
      assert ToLower(s)[1..] == ToLower(s[1..]);
    }
  }

  lemma {:induction false} TrimRightLower(s: bytes)
    ensures TrimRight(ToLower(s)) == ToLower(TrimRight(s))
  {
    if s != [] && IsSpace(s[|s| - 1]) {
      TrimRightLower(s[..|s| - 1]);
      assert ToLower(s)[..|s| - 1] == ToLower(s[..|s| - 1]);
    }
  }

  lemma TrimLower(s: bytes)
    ensures TrimSpace(ToLower(s)) == ToLower(TrimSpace(s))
  {
    TrimLeftLower(s);
    TrimRightLower(TrimLeft(s));
  }

  lemma {:induction false} TrimLeftPadded(s: bytes)
    ensures TrimLeft(s + [32]) == if TrimLeft(s) == [] then [] else TrimLeft(s) + [32]
  {
    if s == [] {
      var one: bytes := [32];
      assert s + [32] == one && one[1..] == [];
    } else if IsSpace(s[0]) {
      TrimLeftPadded(s[1..]);
      assert (s + [32])[1..] == s[1..] + [32];
    }
  }

  lemma TrimPadded(s: bytes)
    ensures TrimSpace([32] + s + [32]) == TrimSpace(s)
  {
    var p: bytes := [32] + s + [32];
    assert p[1..] == s + [32];
    TrimLeftPadded(s);
    var t := TrimLeft(s);
    if t != [] { assert (t + [32])[..|t|] == t; }
  }
}
