/** What a masked text gives away: exactly the text around the spans, the types of the keys, and
    which spans share a key; nothing else about what was masked. */
module Disclosure {
  import opened Placeholders
  import opened Neutralise
  import opened Detection
  import opened Mappings
  import opened Splicing
  import opened RoundTrip
  import opened Policy
  import opened DegradedMode
  import opened PolicyMasking
  import opened PolicyRoundTrip

  /** No earlier detection has the key of detection `i`. */
  ghost predicate FirstOfKey(ds: seq<Detection>, i: nat) {
    i < |ds| && forall j | 0 <= j < i :: CacheKey(ds[j]) != CacheKey(ds[i])
  }

  ghost predicate SameKeys(a: seq<Detection>, b: seq<Detection>) {
    && |a| == |b|
    && forall i, j | 0 <= i < |a| && 0 <= j < |a| ::
         (CacheKey(a[i]) == CacheKey(a[j]) <==> CacheKey(b[i]) == CacheKey(b[j]))
  }

  /** The same spans share a key, and each key comes with the same type. */
  ghost predicate SamePattern(a: seq<Detection>, b: seq<Detection>) {
    && SameKeys(a, b)
    && forall i: nat | FirstOfKey(a, i) && i < |b| :: a[i].category == b[i].category
  }

  ghost predicate Narrows(ds: seq<Detection>) {
    forall d | d in ds :: d.category in NARROW_TYPES
  }

  // -------------------------------------------------------------------- the placeholders

  lemma {:induction false} ForwardIsSeen(ds: seq<Detection>, key: string)
    ensures key in IssueAll(EMPTY, ds).0.forward <==> exists i | 0 <= i < |ds| :: CacheKey(ds[i]) == key
  {
    hide CacheKey;
    if ds != [] {
      var n := |ds| - 1;
      ForwardIsSeen(ds[..n], key);
      if i :| 0 <= i < |ds| && CacheKey(ds[i]) == key && i < n { assert CacheKey(ds[..n][i]) == key; }
      if i :| 0 <= i < n && CacheKey(ds[..n][i]) == key { assert CacheKey(ds[i]) == key; }
    }
  }

  lemma SamePatternFront(a: seq<Detection>, x: Detection, b: seq<Detection>, y: Detection)
    requires SamePattern(a + [x], b + [y]) && |a| == |b|
    ensures SamePattern(a, b)
  {
    hide CacheKey;
    var all, all', n := a + [x], b + [y], |a|;
    assert forall i | 0 <= i < n :: all[i] == a[i] && all'[i] == b[i];
    forall i: nat | FirstOfKey(a, i) ensures a[i].category == b[i].category {
      assert FirstOfKey(all, i);
    }
  }

  /** The last span has the key of an earlier one, the same in both lists; or a new key of the
      same type in both. */
  lemma LastAlike(a: seq<Detection>, x: Detection, b: seq<Detection>, y: Detection) returns (i: nat)
    requires SamePattern(a + [x], b + [y]) && |a| == |b|
    ensures i <= |a|
    ensures i < |a| ==> CacheKey(a[i]) == CacheKey(x) && CacheKey(b[i]) == CacheKey(y)
    ensures i == |a| ==> x.category == y.category
    ensures i == |a| ==> forall j | 0 <= j < |a| :: CacheKey(a[j]) != CacheKey(x) && CacheKey(b[j]) != CacheKey(y)
  {
    hide CacheKey;
    var all, all', n := a + [x], b + [y], |a|;
    assert all[n] == x && all'[n] == y;
    assert forall j | 0 <= j < n :: all[j] == a[j] && all'[j] == b[j];
    assert forall j | 0 <= j < n :: CacheKey(all[j]) == CacheKey(all[n]) <==> CacheKey(all'[j]) == CacheKey(all'[n]);
    if j: nat :| j < n && CacheKey(a[j]) == CacheKey(x) {
      i := j;
    } else {
      i := n;
      assert FirstOfKey(all, n);
    }
  }

  lemma SeenIssue(ds: seq<Detection>, x: Detection, i: nat)
    requires Narrows(ds) && i < |ds| && CacheKey(ds[i]) == CacheKey(x)
    ensures Issue(IssueAll(EMPTY, ds).0, x) == (IssueAll(EMPTY, ds).0, IssueAll(EMPTY, ds).1[i])
  {
    hide CacheKey;
    EmptyIsGrown();
    IssuedIsForward(EMPTY, ds, i);
  }

  lemma NewIssue(ds: seq<Detection>, x: Detection)
    requires forall j | 0 <= j < |ds| :: CacheKey(ds[j]) != CacheKey(x)
    ensures var m := IssueAll(EMPTY, ds).0;
      var n := Counter(m, x.category) + 1;
      Issue(m, x).1 == Placeholder(x.category, n) && Issue(m, x).0.counters == m.counters[x.category := n]
  {
    hide *;
    ForwardIsSeen(ds, CacheKey(x));
    IssueNew(IssueAll(EMPTY, ds).0, x);
  }

  lemma IssueNew(m: Mapping, x: Detection)
    requires CacheKey(x) !in m.forward
    ensures var n := Counter(m, x.category) + 1;
      Issue(m, x).1 == Placeholder(x.category, n) && Issue(m, x).0.counters == m.counters[x.category := n]
  {}

  ghost predicate IssuedAlike(a: seq<Detection>, b: seq<Detection>) {
    && IssueAll(EMPTY, a).1 == IssueAll(EMPTY, b).1
    && IssueAll(EMPTY, a).0.counters == IssueAll(EMPTY, b).0.counters
  }

  lemma NextAlike(a: seq<Detection>, x: Detection, b: seq<Detection>, y: Detection)
    requires SamePattern(a + [x], b + [y]) && |a| == |b| && Narrows(a) && Narrows(b) && IssuedAlike(a, b)
    ensures var r, r' := Issue(IssueAll(EMPTY, a).0, x), Issue(IssueAll(EMPTY, b).0, y);
      r.1 == r'.1 && r.0.counters == r'.0.counters
  {
    var m, m' := IssueAll(EMPTY, a), IssueAll(EMPTY, b);
    assert m.1 == m'.1 && m.0.counters == m'.0.counters;
    SameCounter(m.0, m'.0, x.category);
    hide *;
    var i := LastAlike(a, x, b, y);
    if i < |a| {
      SeenIssue(a, x, i);
      SeenIssue(b, y, i);
    } else {
      NewIssue(a, x);
      NewIssue(b, y);
    }
  }

  lemma IssuedSnoc(a: seq<Detection>, x: Detection, b: seq<Detection>, y: Detection)
    requires IssuedAlike(a, b)
    requires var r, r' := Issue(IssueAll(EMPTY, a).0, x), Issue(IssueAll(EMPTY, b).0, y);
      r.1 == r'.1 && r.0.counters == r'.0.counters
    ensures IssuedAlike(a + [x], b + [y])
  {
    IssueAllSnoc(EMPTY, a, x);
    IssueAllSnoc(EMPTY, b, y);
    hide IssueAll, Issue;
  }

  /** The same pattern gets the same placeholders, whatever the keys and the surfaces are. */
  lemma {:induction false} SamePlaceholders(a: seq<Detection>, b: seq<Detection>)
    requires SamePattern(a, b) && Narrows(a) && Narrows(b)
    ensures IssuedAlike(a, b)
  {
    SameLength(a, b);
    if a != [] {
      var n := |a| - 1;
      NarrowsFront(a);
      NarrowsFront(b);
      hide *;
      assert a == a[..n] + [a[n]] && b == b[..n] + [b[n]];
      SamePatternFront(a[..n], a[n], b[..n], b[n]);
      SamePlaceholders(a[..n], b[..n]);
      NextAlike(a[..n], a[n], b[..n], b[n]);
      IssuedSnoc(a[..n], a[n], b[..n], b[n]);
    }
  }

  lemma SameLength(a: seq<Detection>, b: seq<Detection>)
    requires SamePattern(a, b)
    ensures |a| == |b|
  {}

  lemma NarrowsFront(ds: seq<Detection>)
    requires Narrows(ds) && ds != []
    ensures Narrows(ds[..|ds| - 1])
  {}

  lemma SameCounter(m: Mapping, m': Mapping, category: string)
    requires m.counters == m'.counters
    ensures Counter(m, category) == Counter(m', category)
  {}

  /** A key's first placeholder carries its type. */
  lemma FirstCarriesType(ds: seq<Detection>, i: nat) returns (n: nat)
    requires FirstOfKey(ds, i)
    ensures IssueAll(EMPTY, ds).1[i] == Placeholder(ds[i].category, n)
  {
    hide CacheKey, Placeholder;
    n := Counter(IssueAll(EMPTY, ds[..i]).0, ds[i].category) + 1;
    ForwardIsSeen(ds[..i], CacheKey(ds[i]));
    IssueAllSnoc(EMPTY, ds[..i], ds[i]);
    assert ds == ds[..i] + [ds[i]] + ds[i + 1..] && ds[..i + 1] == ds[..i] + [ds[i]];
    IssueAllAppend(EMPTY, ds[..i] + [ds[i]], ds[i + 1..]);
  }

  /** And the other way round: the placeholders determine the pattern. */
  lemma PatternFromPlaceholders(a: seq<Detection>, b: seq<Detection>)
    requires Narrows(a) && Narrows(b) && IssueAll(EMPTY, a).1 == IssueAll(EMPTY, b).1
    ensures SamePattern(a, b)
  {
    EmptyIsGrown();
    hide CacheKey, Placeholder, IssueAll;
    assert |a| == |b|;
    forall i, j | 0 <= i < |a| && 0 <= j < |a|
      ensures CacheKey(a[i]) == CacheKey(a[j]) <==> CacheKey(b[i]) == CacheKey(b[j])
    {
      SamePlaceholderIffSameKey(EMPTY, a, i, j);
      SamePlaceholderIffSameKey(EMPTY, b, i, j);
    }
    forall i: nat | FirstOfKey(a, i) ensures a[i].category == b[i].category {
      assert forall j | 0 <= j < i :: CacheKey(b[j]) != CacheKey(b[i]);
      var m := FirstCarriesType(a, i);
      var n := FirstCarriesType(b, i);
      assert a[i] in a && b[i] in b;
      NarrowTypeIsWide(a[i].category);
      NarrowTypeIsWide(b[i].category);
      PlaceholderInjective(a[i].category, m, b[i].category, n);
    }
  }

  // ------------------------------------------------------------------------------ the gaps

  /** The text before span `i`, or after the last span. */
  ghost function Gap(text: string, ds: seq<Detection>, i: nat): string
    requires Placed(text, ds) && i <= |ds|
  {
    PlacedPrefix(text, ds, i);
    if i < |ds| then text[EndOf(ds[..i])..ds[i].start] else text[EndOf(ds[..i])..]
  }

  ghost predicate SameGapsBelow(s: string, a: seq<Detection>, t: string, b: seq<Detection>, n: nat)
    requires Placed(s, a) && Placed(t, b) && n <= |a| + 1 && n <= |b| + 1
  {
    forall i | 0 <= i < n :: Gap(s, a, i) == Gap(t, b, i)
  }

  /** The texts are the same around as many spans. */
  ghost predicate SameGaps(s: string, a: seq<Detection>, t: string, b: seq<Detection>)
    requires Placed(s, a) && Placed(t, b)
  {
    |a| == |b| && SameGapsBelow(s, a, t, b, |a| + 1)
  }

  lemma GapOfFront(text: string, ds: seq<Detection>, i: nat)
    requires Placed(text, ds) && i < |ds| - 1
    ensures Placed(text, ds[..|ds| - 1]) && Gap(text, ds[..|ds| - 1], i) == Gap(text, ds, i)
  {
    PlacedPrefix(text, ds, |ds| - 1);
    assert ds[..|ds| - 1][..i] == ds[..i];
  }

  lemma LastPart(text: string, ds: seq<Detection>, fills: seq<string>)
    requires Placed(text, ds) && |fills| == |ds| && ds != []
    ensures var n := |ds| - 1;
      && Placed(text, ds[..n])
      && SpliceTo(text, ds, fills) == SpliceTo(text, ds[..n], fills[..n]) + Gap(text, ds, n) + fills[n]
  {
    SpliceToLast(text, ds, fills);
    hide SpliceTo;
  }

  /** Same gaps and same fills make the same text. */
  lemma {:induction false} SameParts(s: string, a: seq<Detection>, t: string, b: seq<Detection>, fills: seq<string>)
    requires Placed(s, a) && Placed(t, b) && |a| == |b| == |fills| && SameGapsBelow(s, a, t, b, |a|)
    ensures SpliceTo(s, a, fills) == SpliceTo(t, b, fills)
  {
    if a != [] {
      var n := |a| - 1;
      LastPart(s, a, fills);
      LastPart(t, b, fills);
      forall i: nat | i < n ensures Gap(s, a[..n], i) == Gap(t, b[..n], i) {
        GapOfFront(s, a, i);
        GapOfFront(t, b, i);
        assert Gap(s, a, i) == Gap(t, b, i);
      }
      assert Gap(s, a, n) == Gap(t, b, n);
      hide SpliceTo, Placed, Gap;
      SameParts(s, a[..n], t, b[..n], fills[..n]);
    }
  }

  /** The last placeholder of a text is where it is: two ways to cut the text at it, with no
      placeholder after it, are the same. */
  lemma LastPlaceholder(x: string, y: string, p: string, u: string, v: string)
    requires IsPlaceholder(Narrow, p) && MatchFree(Narrow, u) && MatchFree(Narrow, v)
    requires x + p + u == y + p + v
    ensures x == y && u == v
  {
    NotEarlier(x, y, p, u, v);
    NotEarlier(y, x, p, v, u);
    var s := x + p + u;
    assert s[..|x|] == x && s[..|y|] == y;
    assert s[|x| + |p|..] == u && s[|y| + |p|..] == v;
  }

  lemma OnlyFirstOpens(s: string, i: nat, c: nat, p: string)
    requires IsPlaceholder(Narrow, p) && At(s, i, p) && c < |p|
    ensures i + c < |s| && (s[i + c] == '<' <==> c == 0)
  {
    PlaceholderShape(Narrow, p);
    AtChars(s, i, p);
  }

  /** Occurrences of a placeholder do not overlap. */
  lemma OccurrencesApart(s: string, i: nat, j: nat, p: string)
    requires IsPlaceholder(Narrow, p) && At(s, i, p) && At(s, j, p) && i < j && |p| > 0
    ensures i + |p| <= j
  {
    hide IsPlaceholder, At;
    OnlyFirstOpens(s, j, 0, p);
    if j < i + |p| { OnlyFirstOpens(s, i, j - i, p); }
  }

  lemma OccursAfter(x: string, p: string, u: string, j: nat)
    requires At(x + p + u, j, p) && |x| + |p| <= j
    ensures Occurs(p, u)
  {
    var s, k := x + p + u, |x| + |p|;
    assert s[k..|s|] == u;
    SliceOfSlice(s, k, |s|, j - k, j - k + |p|);
    assert At(u, j - k, p);
  }

  lemma NotEarlier(x: string, y: string, p: string, u: string, v: string)
    requires IsPlaceholder(Narrow, p) && MatchFree(Narrow, u) && x + p + u == y + p + v
    ensures |x| >= |y|
  {
    var s := x + p + u;
    assert At(s, |x|, p);
    assert At(y + p + v, |y|, p);
    PlaceholderShape(Narrow, p);
    hide IsPlaceholder;
    if |x| < |y| {
      OccurrencesApart(s, |x|, |y|, p);
      OccursAfter(x, p, u, |y|);
    }
  }

  /** The text and the fills determine the gaps. */
  lemma {:induction false} GapsFromText(s: string, a: seq<Detection>, u: string,
                                        t: string, b: seq<Detection>, v: string, fills: seq<string>)
    requires Placed(s, a) && Placed(t, b) && |a| == |b| == |fills| && MatchFree(Narrow, s) && MatchFree(Narrow, t)
    requires forall i | 0 <= i < |fills| :: IsPlaceholder(Narrow, fills[i])
    requires MatchFree(Narrow, u) && MatchFree(Narrow, v)
    requires SpliceTo(s, a, fills) + u == SpliceTo(t, b, fills) + v
    ensures u == v && SameGapsBelow(s, a, t, b, |a|)
  {
    if a == [] {
      assert "" + u == u && "" + v == v;
    } else {
      var n := |a| - 1;
      LastPart(s, a, fills);
      LastPart(t, b, fills);
      GapMatchFree(s, a, n);
      GapMatchFree(t, b, n);
      var x, y := SpliceTo(s, a[..n], fills[..n]), SpliceTo(t, b[..n], fills[..n]);
      hide SpliceTo, MatchFree, IsPlaceholder;
      LastPlaceholder(x + Gap(s, a, n), y + Gap(t, b, n), fills[n], u, v);
      GapsFromText(s, a[..n], Gap(s, a, n), t, b[..n], Gap(t, b, n), fills[..n]);
      forall i: nat | i < n ensures Gap(s, a, i) == Gap(t, b, i) {
        GapOfFront(s, a, i);
        GapOfFront(t, b, i);
        assert Gap(s, a[..n], i) == Gap(t, b[..n], i);
      }
      hide Gap;
    }
  }

  lemma GapMatchFree(text: string, ds: seq<Detection>, i: nat)
    requires Placed(text, ds) && i <= |ds| && MatchFree(Narrow, text)
    ensures MatchFree(Narrow, Gap(text, ds, i))
  {
    PlacedPrefix(text, ds, i);
    var from := EndOf(ds[..i]);
    MatchFreePart(Narrow, text, from, if i < |ds| then ds[i].start else |text|);
    assert text[from..|text|] == text[from..];
  }

  // ------------------------------------------------------------------------ both together

  /** A text without placeholders and its spans, disjoint, in order and of narrow types. */
  ghost predicate Maskable(text: string, ds: seq<Detection>) {
    Placed(text, ds) && MatchFree(Narrow, text) && Narrows(ds)
  }

  ghost function MaskedWith(text: string, ds: seq<Detection>): string
    requires Placed(text, ds)
  {
    Splice(text, ds, IssueAll(EMPTY, ds).1)
  }

  lemma MaskedParts(text: string, ds: seq<Detection>)
    requires Maskable(text, ds)
    ensures var f := IssueAll(EMPTY, ds).1;
      && (forall i | 0 <= i < |f| :: IsPlaceholder(Narrow, f[i]))
      && Matches(Narrow, MaskedWith(text, ds)) == f
      && MaskedWith(text, ds) == SpliceTo(text, ds, f) + Gap(text, ds, |ds|)
      && MatchFree(Narrow, Gap(text, ds, |ds|))
  {
    EmptyIsGrown();
    IssuedArePlaceholders(EMPTY, ds);
    hide IssueAll, IsPlaceholder, Gap, SpliceTo, Splice, Matches, MatchFree, Grown;
    ScanSplice(text, ds, IssueAll(EMPTY, ds).1, map[]);
    TailGap(text, ds, IssueAll(EMPTY, ds).1);
    GapMatchFree(text, ds, |ds|);
  }

  lemma SameFromText(s: string, a: seq<Detection>, t: string, b: seq<Detection>)
    requires Maskable(s, a) && Maskable(t, b) && MaskedWith(s, a) == MaskedWith(t, b)
    ensures SameGaps(s, a, t, b) && SamePattern(a, b)
  {
    MaskedParts(s, a);
    MaskedParts(t, b);
    hide IssueAll, SamePattern, IsPlaceholder, MatchFree, Placed, SpliceTo, Gap, Narrows, Matches, MaskedWith;
    PatternFromPlaceholders(a, b);
    var f := IssueAll(EMPTY, a).1;
    assert |a| == |f| == |b|;
    GapsFromText(s, a, Gap(s, a, |a|), t, b, Gap(t, b, |b|), f);
  }

  lemma TextFromSame(s: string, a: seq<Detection>, t: string, b: seq<Detection>)
    requires Maskable(s, a) && Maskable(t, b) && SameGaps(s, a, t, b) && SamePattern(a, b)
    ensures MaskedWith(s, a) == MaskedWith(t, b)
  {
    MaskedParts(s, a);
    MaskedParts(t, b);
    SamePlaceholders(a, b);
    hide IssueAll, SamePattern, IsPlaceholder, MatchFree, Placed, SpliceTo, Gap, Narrows, Matches, MaskedWith;
    assert Gap(s, a, |a|) == Gap(t, b, |b|);
    SameParts(s, a, t, b, IssueAll(EMPTY, a).1);
  }

  lemma TailGap(text: string, ds: seq<Detection>, fills: seq<string>)
    requires Placed(text, ds) && |fills| == |ds|
    ensures Splice(text, ds, fills) == SpliceTo(text, ds, fills) + Gap(text, ds, |ds|)
  {
    SpliceParts(text, ds, fills);
    assert ds[..|ds|] == ds;
    hide SpliceTo;
  }

  lemma PolicyMaskable(o: Detectors, text: string, profile: PolicyProfile, mode: Mode)
    ensures var t, ds := NeutraliseUserPlaceholders(text), PolicyDetectionsIn(o, text, profile, mode);
      Maskable(t, ds) && PolicyMasked(o, text, profile, mode).0 == MaskedWith(t, ds)
  {
    PolicyDetectionsInNarrow(o, text, profile, mode);
    NeutralisedMatchFree(text);
    if text != "" {
      PolicyMaskedParts(o, text, profile, mode);
    } else {
      assert NeutraliseUserPlaceholders(text) == "" && PolicyDetectionsIn(o, text, profile, mode) == [];
    }
  }

  /** So a masked text tells the gaps and the pattern, and nothing more: two calls, whatever
      their texts, detectors, profiles and modes, return the same masked text exactly when the
      neutralised inputs are the same around the spans and the spans have the same pattern. */
  lemma MaskedSameIff(o: Detectors, text: string, profile: PolicyProfile, mode: Mode,
                      o': Detectors, text': string, profile': PolicyProfile, mode': Mode)
    ensures var s, t := NeutraliseUserPlaceholders(text), NeutraliseUserPlaceholders(text');
      var a, b := PolicyDetectionsIn(o, text, profile, mode), PolicyDetectionsIn(o', text', profile', mode');
      && Placed(s, a) && Placed(t, b)
      && (PolicyMasked(o, text, profile, mode).0 == PolicyMasked(o', text', profile', mode').0
          <==> SameGaps(s, a, t, b) && SamePattern(a, b))
  {
    var s, t := NeutraliseUserPlaceholders(text), NeutraliseUserPlaceholders(text');
    var a, b := PolicyDetectionsIn(o, text, profile, mode), PolicyDetectionsIn(o', text', profile', mode');
    PolicyMaskable(o, text, profile, mode);
    PolicyMaskable(o', text', profile', mode');
    assert Placed(s, a) && Placed(t, b);
    hide *;
    if MaskedWith(s, a) == MaskedWith(t, b) { SameFromText(s, a, t, b); }
    if SameGaps(s, a, t, b) && SamePattern(a, b) { TextFromSame(s, a, t, b); }
  }
}
