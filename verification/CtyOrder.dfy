/** When the portable lookup depends on the order of a call's segments. */
module CtyOrder {
  import opened Common
  import opened Bytes
  import opened Text
  import opened CtyTrie
  import opened CtyLookup

  /** decodeCTYData trims and upper-cases every key. */
  ghost predicate KeysTrimmed(keys: set<bytes>) {
    forall k :: k in keys ==> Trimmed(k)
  }

  lemma DecodedKeyTrimmed(raw: bytes)
    ensures Trimmed(ToUpper(TrimSpace(raw)))
  {
    TrimSpaceTrims(raw);
  }

  /** The call starts with a key that itself contains a slash. */
  ghost predicate SlashedPrefix(keys: set<bytes>, lookup: bytes) {
    exists k :: k in keys && SLASH in k && k <= lookup
  }

  // ---------------------------------------------------------------- first segments

  lemma {:induction false} FirstSlashAt(s: bytes, i: nat)
    requires i < |s| && s[i] == SLASH && SLASH !in s[..i]
    ensures SLASH in s && FirstSlash(s) == i
  {
    if i > 0 {
      assert s[..i][0] == s[0];
      assert s[..i] == [s[0]] + s[1..][..i - 1];
      FirstSlashAt(s[1..], i - 1);
    }
  }

  /** A slashed key fixes the first segment of every call it starts. */
  lemma SlashedFirst(k: bytes, s: bytes)
    requires SLASH in k && k <= s
    ensures Split(s)[0] == Split(k)[0]
  {
    var i := FirstSlash(k);
    assert s[..i] == k[..i];
    FirstSlashAt(s, i);
  }

  /** With trimmed keys and no matching segment, the fallback finds something exactly when the
      call starts with a slashed key, and then it finds one. */
  lemma FallbackIff(keys: set<bytes>, lookup: bytes)
    requires SLASH in lookup && KeysTrimmed(keys) && Candidates(keys, Split(lookup)) == {}
    ensures Resolve(keys, lookup).Some? <==> SlashedPrefix(keys, lookup)
    ensures Resolve(keys, lookup).Some? ==>
              SLASH in Resolve(keys, lookup).value && Resolve(keys, lookup).value <= lookup
  {
    ExactAgrees(keys, lookup);
    NaiveIsLongest(keys, lookup, |lookup|);
    var r := Resolve(keys, lookup);
    if r.Some? && SLASH !in r.value {
      FirstSegmentMatches(keys, lookup, r.value);
      FirstIsCandidate(keys, lookup);
    }
  }

  lemma FirstIsCandidate(keys: set<bytes>, lookup: bytes)
    requires Matches(keys, Split(lookup)[0])
    ensures Candidates(keys, Split(lookup)) != {}
  {
    hide Matches, Split;
    assert TrimSpace(Split(lookup)[0]) in Candidates(keys, Split(lookup));
  }

  /** Without a matching segment, answers under different first segments agree exactly when
      neither call starts with a slashed key. */
  lemma FallbacksAgreeIff(keys: set<bytes>, a: bytes, b: bytes)
    requires KeysTrimmed(keys) && SLASH in a && SLASH in b && Split(a)[0] != Split(b)[0]
    requires Candidates(keys, Split(a)) == {} && Candidates(keys, Split(b)) == {}
    ensures Resolve(keys, a) == Resolve(keys, b) <==> !SlashedPrefix(keys, a) && !SlashedPrefix(keys, b)
  {
    hide Candidates, Split, Resolve, SlashedPrefix;
    FallbackIff(keys, a);
    FallbackIff(keys, b);
    if Resolve(keys, a).Some? { SlashedFirst(Resolve(keys, a).value, a); }
    if Resolve(keys, b).Some? { SlashedFirst(Resolve(keys, b).value, b); }
  }

  // ---------------------------------------------------------------- two calls

  lemma CandidatesDecide(keys: set<bytes>, cs: bytes, ds: bytes, r: Option<bytes>, q: Option<bytes>)
    requires SLASH in Stripped(cs) && SLASH in Stripped(ds)
    requires Candidates(keys, Split(Stripped(cs))) == Candidates(keys, Split(Stripped(ds))) != {}
    requires Portable(keys, cs, r) && Portable(keys, ds, q)
    ensures r == q
  {
    hide Candidates, Resolve, Split, IsBest;
    var s := Candidates(keys, Split(Stripped(cs)));
    assert cs != [] && ds != [];
    var a :| IsBest(s, a) && r == Resolve(keys, a);
    var b :| IsBest(s, b) && q == Resolve(keys, b);
    BestUnique(s, a, b);
  }

  lemma FallbackDecides(keys: set<bytes>, cs: bytes, r: Option<bytes>)
    requires SLASH in Stripped(cs) && Candidates(keys, Split(Stripped(cs))) == {}
    ensures Portable(keys, cs, r) <==> r == Resolve(keys, Stripped(cs))
  {
    hide Candidates, Resolve, Split;
    assert cs != [];
  }

  /** Two calls whose segments match alike get the same answer when some segment matches. When
      their first segments differ they get it if and only if some segment matches or neither
      starts with a slashed key. */
  lemma OrderIndependent(keys: set<bytes>, cs: bytes, ds: bytes, r: Option<bytes>, q: Option<bytes>)
    requires SLASH in Stripped(cs) && SLASH in Stripped(ds)
    requires Candidates(keys, Split(Stripped(cs))) == Candidates(keys, Split(Stripped(ds)))
    requires Portable(keys, cs, r) && Portable(keys, ds, q)
    ensures Candidates(keys, Split(Stripped(cs))) != {} ==> r == q
    ensures KeysTrimmed(keys) && Split(Stripped(cs))[0] != Split(Stripped(ds))[0] ==>
              (r == q <==>
               || Candidates(keys, Split(Stripped(cs))) != {}
               || (!SlashedPrefix(keys, Stripped(cs)) && !SlashedPrefix(keys, Stripped(ds))))
  {
    hide Candidates, Split, Resolve, SlashedPrefix, Portable, KeysTrimmed, Stripped;
    if Candidates(keys, Split(Stripped(cs))) != {} {
      CandidatesDecide(keys, cs, ds, r, q);
    } else {
      FallbackDecides(keys, cs, r);
      FallbackDecides(keys, ds, q);
      if KeysTrimmed(keys) && Split(Stripped(cs))[0] != Split(Stripped(ds))[0] {
        FallbacksAgreeIff(keys, Stripped(cs), Stripped(ds));
      }
    }
  }

  // ---------------------------------------------------------------- all orders of one call

  /** ds has the segments of cs, in some order. */
  ghost predicate Reorders(cs: bytes, ds: bytes) {
    SLASH in Stripped(ds) && multiset(Split(Stripped(ds))) == multiset(Split(Stripped(cs)))
  }

  /** Every order of the call's segments gets the same answer. */
  ghost predicate OrderFree(keys: set<bytes>, cs: bytes) {
    forall a, b, r, q ::
      Reorders(cs, a) && Reorders(cs, b) && Portable(keys, a, r) && Portable(keys, b, q) ==> r == q
  }

  predicate Alike(segs: seq<bytes>) {
    forall i :: 0 <= i < |segs| ==> segs[i] == segs[0]
  }

  ghost predicate SomeOrderSlashed(keys: set<bytes>, cs: bytes) {
    exists a :: Reorders(cs, a) && SlashedPrefix(keys, Stripped(a))
  }

  lemma {:induction false} SplitJoin(parts: seq<bytes>)
    requires parts != [] && forall i :: 0 <= i < |parts| ==> SLASH !in parts[i]
    ensures Split(Join(parts)) == parts
    ensures |parts| >= 2 ==> SLASH in Join(parts)
  {
    if |parts| > 1 {
      var s, i := Join(parts), |parts[0]|;
      SplitJoin(parts[1..]);
      assert s[..i] == parts[0] && s[i] == SLASH && s[i + 1..] == Join(parts[1..]);
      FirstSlashAt(s, i);
    }
  }

  /** Any order of the segments is the stripped form of some call: the one with a beacon suffix. */
  lemma Realized(cs: bytes, parts: seq<bytes>) returns (ds: bytes)
    requires SLASH in Stripped(cs) && multiset(parts) == multiset(Split(Stripped(cs)))
    ensures Reorders(cs, ds) && Split(Stripped(ds)) == parts
  {
    var segs := Split(Stripped(cs));
    SplitExact(Stripped(cs));
    SplitLength(Stripped(cs));
    SameParts(parts, segs);
    hide Split, Join, Stripped;
    SplitJoin(parts);
    StrippedBeacon(Join(parts));
    ds := Join(parts) + [SLASH, 0x42];
  }

  lemma StrippedBeacon(s: bytes)
    ensures Stripped(s + [SLASH, 0x42]) == s
  {
  }

  lemma SameParts(parts: seq<bytes>, segs: seq<bytes>)
    requires multiset(parts) == multiset(segs) && forall i :: 0 <= i < |segs| ==> SLASH !in segs[i]
    ensures |parts| == |segs| && forall i :: 0 <= i < |parts| ==> SLASH !in parts[i]
  {
    assert |multiset(parts)| == |multiset(segs)|;
    forall i | 0 <= i < |parts| ensures SLASH !in parts[i] {
      assert parts[i] in multiset(segs);
    }
  }

  lemma SplitLength(s: bytes)
    requires SLASH in s
    ensures |Split(s)| >= 2
  {
  }

  /** If not all segments are alike, some order puts a different one first. */
  lemma OtherFirst(segs: seq<bytes>) returns (parts: seq<bytes>)
    requires segs != [] && !Alike(segs)
    ensures multiset(parts) == multiset(segs) && parts != [] && parts[0] != segs[0]
  {
    var p :| 0 <= p < |segs| && segs[p] != segs[0];
    parts := [segs[p]] + segs[..p] + segs[p + 1..];
    assert segs == segs[..p] + [segs[p]] + segs[p + 1..];
  }

  lemma AlikeSame(a: seq<bytes>, b: seq<bytes>)
    requires multiset(a) == multiset(b) && Alike(b) && b != []
    ensures a == b
  {
    assert |multiset(a)| == |multiset(b)|;
    forall i | 0 <= i < |a| ensures a[i] == b[0] {
      assert a[i] in multiset(b);
    }
  }

  /** Main result for one call: every order of its segments gets the same answer if and only if
      some segment matches, all segments are alike, or no order starts with a slashed key. */
  lemma OrderFreeIff(keys: set<bytes>, cs: bytes)
    requires SLASH in Stripped(cs) && KeysTrimmed(keys)
    ensures OrderFree(keys, cs) <==>
            || Candidates(keys, Split(Stripped(cs))) != {}
            || Alike(Split(Stripped(cs)))
            || !SomeOrderSlashed(keys, cs)
  {
    hide Candidates, Split, Portable, KeysTrimmed, Stripped, Alike;
    if Candidates(keys, Split(Stripped(cs))) != {} || Alike(Split(Stripped(cs))) || !SomeOrderSlashed(keys, cs) {
      forall a, b, r, q | Reorders(cs, a) && Reorders(cs, b) && Portable(keys, a, r) && Portable(keys, b, q)
        ensures r == q
      {
        OrdersAgree(keys, cs, a, b, r, q);
      }
    } else {
      OrdersDiffer(keys, cs);
    }
  }

  lemma OrdersAgree(keys: set<bytes>, cs: bytes, a: bytes, b: bytes, r: Option<bytes>, q: Option<bytes>)
    requires SLASH in Stripped(cs) && KeysTrimmed(keys) && Reorders(cs, a) && Reorders(cs, b)
    requires Portable(keys, a, r) && Portable(keys, b, q)
    requires Candidates(keys, Split(Stripped(cs))) != {} || Alike(Split(Stripped(cs))) || !SomeOrderSlashed(keys, cs)
    ensures r == q
  {
    hide Candidates, Split, Portable, KeysTrimmed, Stripped, Alike, Resolve, SlashedPrefix;
    SameCandidates(keys, Split(Stripped(a)), Split(Stripped(cs)));
    SameCandidates(keys, Split(Stripped(b)), Split(Stripped(cs)));
    if Candidates(keys, Split(Stripped(cs))) != {} {
      CandidatesDecide(keys, a, b, r, q);
    } else {
      FallbackDecides(keys, a, r);
      FallbackDecides(keys, b, q);
      if Alike(Split(Stripped(cs))) {
        AlikeSame(Split(Stripped(a)), Split(Stripped(cs)));
        AlikeSame(Split(Stripped(b)), Split(Stripped(cs)));
        SplitExact(Stripped(a));
        SplitExact(Stripped(b));
      } else {
        FallbackIff(keys, Stripped(a));
        FallbackIff(keys, Stripped(b));
      }
    }
  }

  lemma OrdersDiffer(keys: set<bytes>, cs: bytes)
    requires SLASH in Stripped(cs) && KeysTrimmed(keys) && Candidates(keys, Split(Stripped(cs))) == {}
    requires !Alike(Split(Stripped(cs))) && SomeOrderSlashed(keys, cs)
    ensures !OrderFree(keys, cs)
  {
    hide Candidates, Split, Portable, KeysTrimmed, Stripped, Resolve, SlashedPrefix;
    var a :| Reorders(cs, a) && SlashedPrefix(keys, Stripped(a));
    if Alike(Split(Stripped(a))) { AlikeSame(Split(Stripped(cs)), Split(Stripped(a))); }
    var parts := OtherFirst(Split(Stripped(a)));
    var b := Realized(cs, parts);
    SameCandidates(keys, Split(Stripped(a)), Split(Stripped(cs)));
    SameCandidates(keys, parts, Split(Stripped(cs)));
    FallbackDecides(keys, a, Resolve(keys, Stripped(a)));
    FallbackDecides(keys, b, Resolve(keys, Stripped(b)));
    FallbacksAgreeIff(keys, Stripped(a), Stripped(b));
  }

  // ---------------------------------------------------------------- the portable rule in plain terms

  /** Some key starts the segment, spaces around it aside. */
  ghost predicate Usable(keys: set<bytes>, seg: bytes) {
    exists k :: k in keys && k != [] && k <= TrimSpace(seg)
  }

  lemma ResolveMeans(keys: set<bytes>, cs: bytes)
    requires cs != []
    ensures match Resolve(keys, cs)
            case Some(k) => LongestPrefix(keys, cs, k)
            case None => NoPrefix(keys, cs)
  {
    ExactAgrees(keys, cs);
    NaiveIsLongest(keys, cs, |cs|);
  }

  lemma UsableIff(keys: set<bytes>, seg: bytes)
    ensures Matches(keys, seg) <==> Usable(keys, seg)
  {
    var t := TrimSpace(seg);
    if t != [] { ResolveMeans(keys, t); }
    hide TrimSpace, Resolve;
  }

  /** The call without a trailing beacon mark. */
  predicate IsLookup(cs: bytes, lookup: bytes) {
    if |cs| >= 2 && cs[|cs| - 2] == 0x2F && cs[|cs| - 1] == 0x42 then lookup == cs[..|cs| - 2] else lookup == cs
  }

  lemma LookupIsStripped(cs: bytes, lookup: bytes)
    requires IsLookup(cs, lookup)
    ensures lookup == Stripped(cs)
  {
    if |cs| >= 2 { assert cs[|cs| - 2..] == [cs[|cs| - 2], cs[|cs| - 1]]; }
  }

  /** Segment i is usable, and every other usable one is longer, or as long and not before it in
      byte order. */
  ghost predicate Chosen(keys: set<bytes>, segs: seq<bytes>, i: nat)
    requires i < |segs|
  {
    Usable(keys, segs[i]) && forall j :: 0 <= j < |segs| && Usable(keys, segs[j]) ==>
      var a, b := TrimSpace(segs[i]), TrimSpace(segs[j]);
      a == b || |a| < |b| || (|a| == |b| && LexLess(a, b))
  }

  /** The portable rule: the longest key that starts the shortest usable segment, the first of those
      in byte order; without a usable segment, or without a slash, the longest key that starts
      the call; nothing when no key does. */
  lemma PortableMeans(keys: set<bytes>, cs: bytes, lookup: bytes, r: Option<bytes>)
    requires Portable(keys, cs, r) && IsLookup(cs, lookup) && lookup != []
    ensures SLASH in lookup && (exists i :: 0 <= i < |Split(lookup)| && Usable(keys, Split(lookup)[i])) ==>
              exists i :: 0 <= i < |Split(lookup)| && Chosen(keys, Split(lookup), i)
                          && r.Some? && LongestPrefix(keys, TrimSpace(Split(lookup)[i]), r.value)
    ensures SLASH !in lookup || !(exists i :: 0 <= i < |Split(lookup)| && Usable(keys, Split(lookup)[i])) ==>
              match r case Some(k) => LongestPrefix(keys, lookup, k) case None => NoPrefix(keys, lookup)
  {
    hide TrimSpace, Resolve, Split, LexLess, Stripped, Matches, Usable, LongestPrefix, NoPrefix;
    LookupIsStripped(cs, lookup);
    ResolveMeans(keys, lookup);
    var segs := Split(lookup);
    forall i | 0 <= i < |segs| ensures Matches(keys, segs[i]) <==> Usable(keys, segs[i]) { UsableIff(keys, segs[i]); }
    if SLASH in lookup {
      if i :| 0 <= i < |segs| && Usable(keys, segs[i]) {
        assert TrimSpace(segs[i]) in Candidates(keys, segs);
        var b :| IsBest(Candidates(keys, segs), b) && r == Resolve(keys, b);
        BestIsChosen(keys, segs, b);
      } else {
        assert Candidates(keys, segs) == {};
      }
    }
  }

  lemma BestIsChosen(keys: set<bytes>, segs: seq<bytes>, b: bytes)
    requires IsBest(Candidates(keys, segs), b)
    requires forall i :: 0 <= i < |segs| ==> (Matches(keys, segs[i]) <==> Usable(keys, segs[i]))
    ensures exists i :: 0 <= i < |segs| && Chosen(keys, segs, i) && TrimSpace(segs[i]) == b
                        && Resolve(keys, b).Some? && LongestPrefix(keys, TrimSpace(segs[i]), Resolve(keys, b).value)
  {
    hide TrimSpace, Resolve, LexLess, Usable, LongestPrefix, NoPrefix;
    var i :| 0 <= i < |segs| && Matches(keys, segs[i]) && TrimSpace(segs[i]) == b;
    ResolveMeans(keys, b);
    forall j | 0 <= j < |segs| && Usable(keys, segs[j]) ensures TrimSpace(segs[j]) in Candidates(keys, segs) {
      assert Matches(keys, segs[j]);
    }
    assert Chosen(keys, segs, i);
  }
}
