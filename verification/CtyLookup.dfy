/** Callsign resolution over the CTY data: exact match, longest prefix, and the
    segment rule for portable calls. */
module CtyLookup {
  import opened Common
  import opened Bytes
  import opened Text
  import opened CtyTrie

  // ---------------------------------------------------------------- plain search

  /** Plain longest-prefix search: try ever shorter prefixes of the call. */
  function Naive(keys: set<bytes>, cs: bytes, n: nat): (r: Option<bytes>)
    requires n <= |cs|
  {
    if n == 0 then None else if cs[..n] in keys then Some(cs[..n]) else Naive(keys, cs, n - 1)
  }

  lemma {:induction false} NaiveIsLongest(keys: set<bytes>, cs: bytes, n: nat)
    requires n <= |cs|
    requires forall k :: k in keys && k != [] && k <= cs ==> |k| <= n
    ensures match Naive(keys, cs, n)
            case Some(k) => LongestPrefix(keys, cs, k)
            case None => NoPrefix(keys, cs)
  {
    if n > 0 && cs[..n] !in keys {
      forall k | k in keys && k != [] && k <= cs ensures |k| <= n - 1 {
        assert k == cs[..|k|];
      }
      NaiveIsLongest(keys, cs, n - 1);
    }
  }

  /** What a lookup resolves to: the call itself when listed, else its longest prefix. */
  function Resolve(keys: set<bytes>, cs: bytes): (r: Option<bytes>) {
    if cs in keys then Some(cs) else Naive(keys, cs, |cs|)
  }

  /** For a nonempty call the exact-match shortcut is the plain search. */
  lemma ExactAgrees(keys: set<bytes>, cs: bytes)
    requires cs != []
    ensures Resolve(keys, cs) == Naive(keys, cs, |cs|)
  {
    assert cs[..|cs|] == cs;
  }

  lemma LongestIsNaive(keys: set<bytes>, cs: bytes, k: bytes)
    requires LongestPrefix(keys, cs, k)
    ensures Naive(keys, cs, |cs|) == Some(k)
  {
    NaiveIsLongest(keys, cs, |cs|);
    var r := Naive(keys, cs, |cs|);
    assert r.Some?;
    assert r.value == cs[..|r.value|] && k == cs[..|k|];
  }

  /** The answer is what the data holds under the key, or nothing without one. */
  ghost predicate Names<V>(data: map<bytes, V>, key: Option<bytes>, r: Option<V>) {
    match key
    case Some(k) => k in data && r == Some(data[k])
    case None => r == None
  }

  /** lookupCallsignNoCache: the trie answers as the plain search would. */
  method LookupNoCache<V>(data: map<bytes, V>, nodes: seq<Node>, cs: bytes)
    returns (r: Option<V>)
    requires IsTrie(nodes, data.Keys)
    ensures Names(data, Resolve(data.Keys, cs), r)
  {
    NaiveIsLongest(data.Keys, cs, |cs|);
    if cs in data { return Some(data[cs]); }
    hide Shape, Terminals;
    var key, ok := LongestPrefixKey(nodes, data.Keys, cs);
    if ok {
      LongestIsNaive(data.Keys, cs, key);
      return Some(data[key]);
    }
    return None;
  }

  // ---------------------------------------------------------------- portable calls

  const SLASH: byte := 0x2F

  /** strings.Split(s, "/"). */
  function Split(s: bytes): (r: seq<bytes>)
    ensures r != []
  {
    if SLASH !in s then [s] else
      var i := FirstSlash(s);
      [s[..i]] + Split(s[i + 1..])
  }

  function FirstSlash(s: bytes): (i: nat)
    requires SLASH in s
    ensures i < |s| && s[i] == SLASH && SLASH !in s[..i]
  {
    if s[0] == SLASH then 0 else
      assert s == [s[0]] + s[1..];
      var i := FirstSlash(s[1..]);
      assert s[..i + 1] == [s[0]] + s[1..][..i];
      i + 1
  }

  function Join(r: seq<bytes>): (s: bytes)
    requires r != []
  {
    if |r| == 1 then r[0] else r[0] + [SLASH] + Join(r[1..])
  }

  /** Splitting cuts at every slash and loses nothing. */
  lemma {:induction false} SplitExact(s: bytes)
    ensures Join(Split(s)) == s
    ensures forall i :: 0 <= i < |Split(s)| ==> SLASH !in Split(s)[i]
    decreases |s|
  {
    if SLASH in s {
      var i := FirstSlash(s);
      SplitExact(s[i + 1..]);
      var r := Split(s);
      assert r[1..] == Split(s[i + 1..]);
      assert s == s[..i] + [SLASH] + s[i + 1..];
      forall j | 0 <= j < |r| ensures SLASH !in r[j] {
        if j > 0 { assert r[j] == Split(s[i + 1..])[j - 1]; }
      }
    }
  }

  function Stripped(cs: bytes): (r: bytes) {
    if |cs| >= 2 && cs[|cs| - 2..] == [SLASH, 0x42] then cs[..|cs| - 2] else cs
  }

  /** A segment counts when its trimmed form is nonempty and resolves. */
  predicate Matches(keys: set<bytes>, seg: bytes) {
    TrimSpace(seg) != [] && Resolve(keys, TrimSpace(seg)).Some?
  }

  /** The trimmed segments of a call that match. */
  function Candidates(keys: set<bytes>, segs: seq<bytes>): (s: set<bytes>) {
    set i | 0 <= i < |segs| && Matches(keys, segs[i]) :: TrimSpace(segs[i])
  }

  predicate ShortLess(a: bytes, b: bytes) {
    |a| < |b| || (|a| == |b| && LexLess(a, b))
  }

  ghost predicate IsBest(s: set<bytes>, b: bytes) {
    b in s && forall c :: c in s ==> c == b || ShortLess(b, c)
  }

  lemma BestUnique(s: set<bytes>, a: bytes, b: bytes)
    requires IsBest(s, a) && IsBest(s, b)
    ensures a == b
  {
    if a != b && |a| == |b| { LexAsymmetric(a, b); }
  }

  lemma CandidatesSnoc(keys: set<bytes>, segs: seq<bytes>, seg: bytes)
    ensures Matches(keys, seg) ==> Candidates(keys, segs + [seg]) == Candidates(keys, segs) + {TrimSpace(seg)}
    ensures !Matches(keys, seg) ==> Candidates(keys, segs + [seg]) == Candidates(keys, segs)
  {
    hide Matches, TrimSpace;
    var all := segs + [seg];
    assert all[|segs|] == seg;
    forall c | c in Candidates(keys, segs) ensures c in Candidates(keys, all) {
      var i :| 0 <= i < |segs| && Matches(keys, segs[i]) && TrimSpace(segs[i]) == c;
      assert all[i] == segs[i];
    }
  }

  /** The portable rule: the shortest matching segment, the least among equals, else
      the whole call. */
  ghost predicate Portable(keys: set<bytes>, cs: bytes, r: Option<bytes>) {
    var lookup := Stripped(cs);
    if cs == [] then r == None
    else if SLASH !in lookup then r == Resolve(keys, lookup)
    else if Candidates(keys, Split(lookup)) == {} then r == Resolve(keys, lookup)
    else exists b :: IsBest(Candidates(keys, Split(lookup)), b) && r == Resolve(keys, b)
  }

  lemma BestStep(s: set<bytes>, b: bytes, seg: bytes)
    requires IsBest(s, b)
    ensures IsBest(s + {seg}, if ShortLess(seg, b) then seg else b)
  {
    hide LexLess;
    LexTotal(seg, b);
    forall c | c in s ensures ShortLess(seg, b) ==> c == seg || ShortLess(seg, c) {
      if ShortLess(seg, b) && c != b && |seg| == |b| == |c| { LexTransitive(seg, b, c); }
    }
  }

  /** lookupCallsignPortableNoCache. */
  method LookupPortable<V>(data: map<bytes, V>, nodes: seq<Node>, cs: bytes)
    returns (r: Option<V>)
    requires IsTrie(nodes, data.Keys)
    ensures exists key :: Portable(data.Keys, cs, key) && Names(data, key, r)
  {
    hide Shape, Terminals, Resolve, Candidates, Matches, TrimSpace, IsBest, Stripped;
    if cs == [] {
      assert Portable(data.Keys, cs, None) && Names(data, None, None);
      return None;
    }
    var lookup := Stripped(cs);
    if SLASH !in lookup {
      r := LookupNoCache(data, nodes, lookup);
      assert Portable(data.Keys, cs, Resolve(data.Keys, lookup));
      return;
    }
    var bestSeg: bytes := [];
    var bestInfo: Option<V> := None;
    var segments := Split(lookup);
    NoCandidates(data.Keys);
    for i := 0 to |segments|
      invariant bestInfo.None? ==> Candidates(data.Keys, segments[..i]) == {}
      invariant bestInfo.Some? ==> IsBest(Candidates(data.Keys, segments[..i]), bestSeg)
      invariant bestInfo.Some? ==> Names(data, Resolve(data.Keys, bestSeg), bestInfo)
    {
      assert segments[..i + 1] == segments[..i] + [segments[i]];
      CandidatesSnoc(data.Keys, segments[..i], segments[i]);
      MatchesIff(data.Keys, segments[i]);
      var seg := TrimSpace(segments[i]);
      if seg == [] { continue; }
      var info := LookupNoCache(data, nodes, seg);
      if info.None? { continue; }
      ghost var before := Candidates(data.Keys, segments[..i]);
      if bestInfo.None? { BestSingle(seg); assert before + {seg} == {seg}; } else { BestStep(before, bestSeg, seg); }
      if bestInfo.None? || |seg| < |bestSeg| || (|seg| == |bestSeg| && LexLess(seg, bestSeg)) {
        bestSeg := seg;
        bestInfo := info;
      }
    }
    assert segments[..|segments|] == segments;
    if bestInfo.Some? {
      BestNonempty(Candidates(data.Keys, segments), bestSeg);
      assert Portable(data.Keys, cs, Resolve(data.Keys, bestSeg));
      return bestInfo;
    }
    r := LookupNoCache(data, nodes, lookup);
    assert Portable(data.Keys, cs, Resolve(data.Keys, lookup));
  }

  lemma MatchesIff(keys: set<bytes>, seg: bytes)
    ensures Matches(keys, seg) <==> TrimSpace(seg) != [] && Resolve(keys, TrimSpace(seg)).Some?
  {
  }

  lemma NoCandidates(keys: set<bytes>)
    ensures Candidates(keys, []) == {}
  {
  }

  lemma BestSingle(b: bytes)
    ensures IsBest({b}, b)
  {
  }

  lemma BestNonempty(s: set<bytes>, b: bytes)
    requires IsBest(s, b)
    ensures s != {}
  {
  }

  /** Reordering the segments does not change which of them match. */
  lemma SameCandidates(keys: set<bytes>, a: seq<bytes>, b: seq<bytes>)
    requires multiset(a) == multiset(b)
    ensures Candidates(keys, a) == Candidates(keys, b)
  {
    hide Matches, TrimSpace;
    forall x: seq<bytes>, y: seq<bytes>, c | multiset(x) == multiset(y) && c in Candidates(keys, x)
      ensures c in Candidates(keys, y)
    {
      var i :| 0 <= i < |x| && Matches(keys, x[i]) && TrimSpace(x[i]) == c;
      assert x[i] in multiset(y);
      var j :| 0 <= j < |y| && y[j] == x[i];
    }
  }

  /** When no segment matches and no key holds a slash, the whole call finds nothing
      either, so order still does not matter. */
  lemma NoMatchFindsNothing(keys: set<bytes>, cs: bytes)
    requires SLASH in Stripped(cs) && Candidates(keys, Split(Stripped(cs))) == {}
    requires forall k :: k in keys ==> Trimmed(k) && SLASH !in k
    ensures Resolve(keys, Stripped(cs)) == None
  {
    var lookup := Stripped(cs);
    var seg := Split(lookup)[0];
    assert Matches(keys, seg) ==> TrimSpace(seg) in Candidates(keys, Split(lookup));
    NaiveIsLongest(keys, lookup, |lookup|);
    if Naive(keys, lookup, |lookup|).Some? {
      FirstSegmentMatches(keys, lookup, Naive(keys, lookup, |lookup|).value);
    }
  }

  /** A slash-free key that starts the call starts its first segment. */
  lemma FirstSegmentMatches(keys: set<bytes>, lookup: bytes, k: bytes)
    requires SLASH in lookup && k in keys && k != [] && k <= lookup && Trimmed(k) && SLASH !in k
    ensures Matches(keys, Split(lookup)[0])
  {
    var i := FirstSlash(lookup);
    assert forall j :: 0 <= j < |k| ==> lookup[j] == k[j] && k[j] in k;
    PrefixOfTrimmed(k, lookup[..i]);
    var seg := TrimSpace(lookup[..i]);
    NaiveIsLongest(keys, seg, |seg|);
  }

  lemma PrefixOfTrimmed(k: bytes, s: bytes)
    requires k != [] && Trimmed(k) && k <= s
    ensures k <= TrimSpace(s)
  {
    assert TrimLeft(s) == s;
    assert |TrimRight(s)| >= |k|;
  }

  /** With a slashed key the fallback does depend on the order of the segments. */
  lemma FallbackDependsOnOrder()
    ensures var keys: set<bytes> := {[0x41, SLASH, 0x43]};
            Portable(keys, [0x41, SLASH, 0x43], Some([0x41, SLASH, 0x43]))
            && Portable(keys, [0x43, SLASH, 0x41], None)
  {
    var keys: set<bytes> := {[0x41, SLASH, 0x43]};
    SmallSplit(0x41, 0x43);
    SmallSplit(0x43, 0x41);
    SingleUnresolved(keys, 0x41);
    SingleUnresolved(keys, 0x43);
    var d: bytes := [0x43, SLASH, 0x41];
    NaiveIsLongest(keys, d, 3);
    assert Resolve(keys, d) == None;
  }

  lemma SingleUnresolved(keys: set<bytes>, a: byte)
    requires forall k :: k in keys ==> |k| > 1
    ensures Resolve(keys, [a]) == None
  {
    assert [a][..1] == [a] && [a] !in keys;
    assert Naive(keys, [a], 0) == None;
  }

  lemma SmallSplit(a: byte, b: byte)
    requires a != SLASH && b != SLASH && !IsSpace(a) && !IsSpace(b)
    ensures Split([a, SLASH, b]) == [[a], [b]] && TrimSpace([a]) == [a] && TrimSpace([b]) == [b]
  {
    var s: bytes := [a, SLASH, b];
    assert FirstSlash(s) == 1;
    assert s[..1] == [a] && s[2..] == [b];
  }
}
