/** What masking under a policy promises: agreement with the plain masker, the entities it
    reports, the placeholders it uses, and restoration. */
module PolicyRoundTrip {
  import opened Text
  import opened Placeholders
  import opened Neutralise
  import opened Detection
  import opened Mappings
  import opened Splicing
  import opened Masking
  import opened RoundTrip
  import opened Policy
  import opened DegradedMode
  import opened PolicyMasking

  ghost function PolicyDetectionsIn(o: Detectors, text: string, profile: PolicyProfile, mode: Mode): seq<Detection> {
    if text == "" then [] else PolicyDetections(o, NeutraliseUserPlaceholders(text), profile, mode)
  }

  lemma PolicyDetectionsInNarrow(o: Detectors, text: string, profile: PolicyProfile, mode: Mode)
    ensures forall d | d in PolicyDetectionsIn(o, text, profile, mode) ::
      d.category in NARROW_TYPES && IsAllowed(d.category, profile.maskCategories)
  {
    if text != "" {
      PolicyDetectionsPlaced(o, NeutraliseUserPlaceholders(text), profile, mode);
    }
  }

  // ------------------------------------------------------------------------ the info map

  /** The info map holds the reverse table that plain masking would have built. */
  lemma {:induction false} OriginalsAreReverse(ds: seq<Detection>)
    ensures Originals(InfoOf(ds)) == IssueAll(EMPTY, ds).0.reverse
  {
    if ds != [] {
      var n := |ds| - 1;
      OriginalsAreReverse(ds[..n]);
      var m := IssueAll(EMPTY, ds[..n]).0;
      if CacheKey(ds[n]) !in m.forward {
        assert InfoOf(ds)[..|InfoOf(ds)| - 1] == InfoOf(ds[..n]);
      }
    }
  }

  ghost function PlaceholdersOf(info: seq<Info>): set<string> {
    set i | 0 <= i < |info| :: info[i].placeholder
  }

  lemma {:induction false} OriginalsKeys(info: seq<Info>)
    ensures Originals(info).Keys == PlaceholdersOf(info)
  {
    if info != [] {
      var n := |info| - 1;
      OriginalsKeys(info[..n]);
      assert PlaceholdersOf(info) == PlaceholdersOf(info[..n]) + {info[n].placeholder};
    }
  }

  /** The placeholder is one of this type. */
  ghost predicate OfType(p: string, category: string) {
    exists n: nat :: p == Placeholder(category, n)
  }

  /** Every entry reports one detection: its text, type and confidence, and a placeholder of that
      type. */
  lemma {:induction false} InfoEntry(ds: seq<Detection>, e: Info) returns (d: Detection)
    requires e in InfoOf(ds)
    ensures d in ds && OfType(e.placeholder, e.category)
    ensures e.original == d.surface && e.category == d.category && e.confidence == d.confidence
  {
    hide CacheKey, Placeholder;
    var n := |ds| - 1;
    if e in InfoOf(ds[..n]) {
      d := InfoEntry(ds[..n], e);
    } else {
      d := ds[n];
      assert OfType(e.placeholder, e.category);
    }
  }

  ghost predicate AllDistinct(info: seq<Info>) {
    forall i, j | 0 <= i < j < |info| :: info[i].placeholder != info[j].placeholder
  }

  lemma InfoSnoc(info: seq<Info>, x: Info)
    requires AllDistinct(info) && x.placeholder !in PlaceholdersOf(info)
    ensures AllDistinct(info + [x])
  {
    assert forall i | 0 <= i < |info| :: info[i].placeholder in PlaceholdersOf(info);
    hide PlaceholdersOf;
  }

  /** A newly issued placeholder has not been reported before. */
  lemma NewIsUnreported(ds: seq<Detection>, d: Detection)
    requires forall d | d in ds :: d.category in NARROW_TYPES
    requires d.category in NARROW_TYPES && CacheKey(d) !in IssueAll(EMPTY, ds).0.forward
    ensures Issue(IssueAll(EMPTY, ds).0, d).1 !in PlaceholdersOf(InfoOf(ds))
  {
    var m := IssueAll(EMPTY, ds).0;
    OriginalsAreReverse(ds);
    OriginalsKeys(InfoOf(ds));
    EmptyIsGrown();
    IssueAllKeepsGrown(EMPTY, ds);
    IssueKeepsGrown(m, d);
    hide Grown, IssueAll, CacheKey, Issue, Originals, Extends, PlaceholdersOf;
  }

  /** No placeholder is reported twice, so inserting into the dict never overwrites. */
  lemma {:induction false} InfoDistinct(ds: seq<Detection>)
    requires forall d | d in ds :: d.category in NARROW_TYPES
    ensures AllDistinct(InfoOf(ds))
  {
    if ds != [] {
      var n := |ds| - 1;
      assert ds[n] in ds;
      InfoDistinct(ds[..n]);
      var m, info, d := IssueAll(EMPTY, ds[..n]).0, InfoOf(ds[..n]), ds[n];
      var x := Info(Issue(m, d).1, d.surface, d.category, d.confidence);
      assert InfoOf(ds) == if CacheKey(d) in m.forward then info else info + [x];
      hide IssueAll, CacheKey, Issue, PlaceholdersOf, AllDistinct;
      if CacheKey(d) !in m.forward {
        NewIsUnreported(ds[..n], d);
        InfoSnoc(info, x);
      }
    }
  }

  /** The placeholders of a fresh mapping are the ones it issued. */
  lemma {:induction false} ReverseIsIssued(ds: seq<Detection>, p: string)
    requires forall d | d in ds :: d.category in NARROW_TYPES
    ensures p in IssueAll(EMPTY, ds).0.reverse <==> p in IssueAll(EMPTY, ds).1
  {
    if ds != [] {
      var n := |ds| - 1;
      var front := IssueAll(EMPTY, ds[..n]);
      assert ds[n] in ds;
      ReverseIsIssued(ds[..n], p);
      EmptyIsGrown();
      IssueAllKeepsGrown(EMPTY, ds[..n]);
      assert CacheKey(ds[n]) in front.0.forward ==> front.0.forward[CacheKey(ds[n])] in front.0.reverse;
      hide Grown, CacheKey;
    }
  }

  lemma PolicyMaskedParts(o: Detectors, text: string, profile: PolicyProfile, mode: Mode)
    requires text != ""
    ensures var t := NeutraliseUserPlaceholders(text);
      var ds := PolicyDetections(o, t, profile, mode);
      && Placed(t, ds) && MatchFree(Narrow, t)
      && ds == PolicyDetectionsIn(o, text, profile, mode)
      && PolicyMasked(o, text, profile, mode) == (Splice(t, ds, IssueAll(EMPTY, ds).1), InfoOf(ds))
      && (forall i | 0 <= i < |ds| :: IsPlaceholder(Narrow, IssueAll(EMPTY, ds).1[i]))
      && (forall i | 0 <= i < |ds| :: Within(ds[i], t))
  {
    var t := NeutraliseUserPlaceholders(text);
    var ds := PolicyDetections(o, t, profile, mode);
    PolicyDetectionsPlaced(o, t, profile, mode);
    NeutralisedMatchFree(text);
    EmptyIsGrown();
    assert forall i | 0 <= i < |ds| :: ds[i] in ds;
    IssuedArePlaceholders(EMPTY, ds);
  }

  /** The entities returned are exactly the distinct narrow placeholders of the masked text. */
  lemma EntitiesAreMatches(o: Detectors, text: string, profile: PolicyProfile, mode: Mode)
    ensures var (masked, info) := PolicyMasked(o, text, profile, mode);
      && (forall p :: p in Matches(Narrow, masked) <==> p in PlaceholdersOf(info))
      && (forall i, j | 0 <= i < j < |info| :: info[i].placeholder != info[j].placeholder)
  {
    if text != "" {
      var t := NeutraliseUserPlaceholders(text);
      var ds := PolicyDetections(o, t, profile, mode);
      PolicyMaskedParts(o, text, profile, mode);
      PolicyDetectionsInNarrow(o, text, profile, mode);
      hide *;
      ScanSplice(t, ds, IssueAll(EMPTY, ds).1, map[]);
      InfoDistinct(ds);
      OriginalsAreReverse(ds);
      OriginalsKeys(InfoOf(ds));
      forall p { ReverseIsIssued(ds, p); }
    }
  }

  // ------------------------------------------------------------ agreement with mask_text

  lemma {:induction false} AllAllowed(ds: seq<Detection>, allowed: set<string>)
    requires forall d | d in ds :: IsAllowed(d.category, allowed)
    ensures Allowed(ds, allowed) == ds
  {
    hide IsAllowed;
    if ds != [] {
      var n := |ds| - 1;
      assert ds[n] in ds;
      AllAllowed(ds[..n], allowed);
      assert ds == ds[..n] + [ds[n]];
    }
  }

  lemma StrictAndBalancedAllowAll(profile: PolicyProfile, category: string)
    requires Profile("strict") == Some(profile) || Profile("balanced") == Some(profile)
    requires category in NARROW_TYPES
    ensures IsAllowed(category, profile.maskCategories)
  {}

  lemma SamePersons(o: Detectors, text: string, minConfidence: real)
    requires forall p | p in o.findPersons(text) :: p.confidence.GetOr(1.0) >= minConfidence
    ensures PersonCandidates(o, text, Some(minConfidence)) == PersonCandidates(o, text, None)
  {
    var a, b := PersonCandidates(o, text, Some(minConfidence)), PersonCandidates(o, text, None);
    var ps := o.findPersons(text);
    forall j | 0 <= j < |ps| ensures a[j] == b[j] {
      assert ps[j] in ps;
    }
  }

  /** In full mode under the strict or the balanced profile the adapter is the plain masker on
      an empty mapping: same masked text, same originals, for every detector whose names reach
      the profile's confidence. `PersonSpan` carries none, which counts as 1.0. */
  lemma FullModeIsMaskText(o: Detectors, text: string, profile: PolicyProfile)
    requires Profile("strict") == Some(profile) || Profile("balanced") == Some(profile)
    requires forall p | p in o.findPersons(NeutraliseUserPlaceholders(text)) ::
      p.confidence.GetOr(1.0) >= profile.natashaMinConfidence
    ensures var (masked, info) := PolicyMasked(o, text, profile, Full);
      && masked == Masked(o, EMPTY, text).1
      && Originals(info) == Masked(o, EMPTY, text).0.reverse
  {
    if text != "" {
      var t := NeutraliseUserPlaceholders(text);
      SamePersons(o, t, profile.natashaMinConfidence);
      assert PolicyCandidates(o, t, profile, Full) == MaskerCandidates(o, t);
      var ds := SortByStart(Greedy(MaskerCandidates(o, t)));
      DetectionsPlaced(o, t);
      forall d | d in ds ensures IsAllowed(d.category, profile.maskCategories) {
        StrictAndBalancedAllowAll(profile, d.category);
      }
      AllAllowed(ds, profile.maskCategories);
      OriginalsAreReverse(ds);
      assert PolicyDetections(o, t, profile, Full) == Detections(o, t);
    }
  }

  /** Before the policy filter, every span chosen in degraded mode meets one chosen in
      emergency mode. It need not be covered: see module `EmergencyMode`. */
  lemma EmergencyMeetsDegraded(o: Detectors, text: string, profile: PolicyProfile, d: Detection)
    requires d in Greedy(PolicyCandidates(o, text, profile, Degraded))
    ensures Clashes(d, Greedy(PolicyCandidates(o, text, profile, Emergency)))
  {
    var strict := RegexCandidates(o, text, true, |PATTERNS|);
    var lax := RegexCandidates(o, text, false, |PATTERNS|);
    assert strict + [] == strict && lax + [] == lax;
    CheckedMeetsUnchecked(o, text, d);
  }

  // ----------------------------------------------------------------------- placeholders

  lemma {:induction false} CounterBound(ds: seq<Detection>, category: string)
    ensures Counter(IssueAll(EMPTY, ds).0, category) <= |ds|
  {
    if ds != [] {
      var n := |ds| - 1;
      hide CacheKey;
      CounterBound(ds[..n], category);
      CounterBound(ds[..n], ds[n].category);
    }
  }

  lemma {:induction false} SpansFit(text: string, ds: seq<Detection>)
    requires Placed(text, ds)
    ensures |ds| <= EndOf(ds)
  {
    if ds != [] {
      PlacedPrefix(text, ds, |ds| - 1);
      SpansFit(text, ds[..|ds| - 1]);
    }
  }

  /** Texts shorter than 10^18 characters get placeholders of at most 33 characters. */
  lemma ShortPlaceholders(o: Detectors, text: string, profile: PolicyProfile, mode: Mode)
    requires |text| < 1_000_000_000_000_000_000
    ensures forall p | p in PlaceholdersOf(PolicyMasked(o, text, profile, mode).1) ::
      IsPlaceholder(Narrow, p) && |p| <= 33
  {
    if text != "" {
      var t := NeutraliseUserPlaceholders(text);
      var ds := PolicyDetections(o, t, profile, mode);
      var m := IssueAll(EMPTY, ds).0;
      PolicyMaskedParts(o, text, profile, mode);
      PolicyDetectionsInNarrow(o, text, profile, mode);
      EmptyIsGrown();
      IssueAllKeepsGrown(EMPTY, ds);
      OriginalsAreReverse(ds);
      OriginalsKeys(InfoOf(ds));
      SpansFit(t, ds);
      forall p | p in m.reverse ensures IsPlaceholder(Narrow, p) && |p| <= 33 {
        ShortEntry(ds, m, p, |t|);
      }
    }
  }

  lemma ShortEntry(ds: seq<Detection>, m: Mapping, p: string, bound: nat)
    requires m == IssueAll(EMPTY, ds).0 && Grown(m) && p in m.reverse
    requires |ds| <= bound < 1_000_000_000_000_000_000
    ensures IsPlaceholder(Narrow, p) && |p| <= 33
  {
    hide *;
    var c, n := NumberOfEntry(m, p);
    CounterBound(ds, c);
    ShortPlaceholder(c, n);
    PlaceholderCut(Narrow, c, n);
  }

  // ------------------------------------------------------------------------ restoration

  /** What restoring gives back: the neutralised text, each detected span showing the surface
      recorded first for its key. */
  ghost function PolicyRestored(o: Detectors, text: string, profile: PolicyProfile, mode: Mode): string {
    if text == "" then ""
    else
      var t := NeutraliseUserPlaceholders(text);
      var ds := PolicyDetections(o, t, profile, mode);
      PolicyDetectionsPlaced(o, t, profile, mode);
      Splice(t, ds, FirstSurfaces(ds))
  }

  ghost function FirstSurfaces(ds: seq<Detection>): seq<string> {
    seq(|ds|, i requires 0 <= i < |ds| => FirstSurface(ds, CacheKey(ds[i])).GetOr(""))
  }

  /** Any table that still has the originals of this call restores its masked text. */
  lemma RestoresMasked(o: Detectors, text: string, profile: PolicyProfile, mode: Mode, table: map<string, string>)
    requires var originals := Originals(PolicyMasked(o, text, profile, mode).1);
      forall p | p in originals :: p in table && table[p] == originals[p]
    ensures Substitute(Narrow, table, PolicyMasked(o, text, profile, mode).0) == PolicyRestored(o, text, profile, mode)
  {
    if text != "" {
      var t := NeutraliseUserPlaceholders(text);
      var ds := PolicyDetections(o, t, profile, mode);
      PolicyMaskedParts(o, text, profile, mode);
      PolicyDetectionsInNarrow(o, text, profile, mode);
      OriginalsAreReverse(ds);
      TableEntries(ds, table);
      assert PolicyRestored(o, text, profile, mode) == Splice(t, ds, FirstSurfaces(ds));
      hide *;
      ScanSplice(t, ds, IssueAll(EMPTY, ds).1, table);
    }
  }

  lemma TableEntries(ds: seq<Detection>, table: map<string, string>)
    requires forall d | d in ds :: d.category in NARROW_TYPES
    requires var m := IssueAll(EMPTY, ds).0;
      forall p | p in m.reverse :: p in table && table[p] == m.reverse[p]
    ensures Entries(table, IssueAll(EMPTY, ds).1) == FirstSurfaces(ds)
  {
    hide Grown, IssueAll, CacheKey, FirstSurface;
    var r := IssueAll(EMPTY, ds);
    EmptyIsGrown();
    forall i | 0 <= i < |ds| ensures Entry(table, r.1[i]) == FirstSurface(ds, CacheKey(ds[i])).GetOr("") {
      IssuedIsForward(EMPTY, ds, i);
      FirstSurfaceRecorded(ds, CacheKey(ds[i]));
    }
  }

  lemma {:induction false} LiteralFirstSurface(ds: seq<Detection>, i: nat)
    requires i < |ds| && forall d | d in ds :: CacheKey(d) == d.surface
    ensures FirstSurface(ds, CacheKey(ds[i])) == Some(ds[i].surface)
  {
    hide CacheKey;
    var n := |ds| - 1;
    assert ds[n] in ds && ds[i] in ds;
    FirstSurfaceHasKey(ds[..n], CacheKey(ds[i]));
    if i < n { LiteralFirstSurface(ds[..n], i); }
  }

  lemma {:induction false} FirstSurfaceHasKey(ds: seq<Detection>, key: string)
    requires forall d | d in ds :: CacheKey(d) == d.surface
    ensures FirstSurface(ds, key).Some? ==> FirstSurface(ds, key).value == key
  {
    hide CacheKey;
    if ds != [] {
      assert ds[|ds| - 1] in ds;
      FirstSurfaceHasKey(ds[..|ds| - 1], key);
    }
  }

  /** Every span shows the surface that its key was first seen with. */
  ghost predicate OneSurfacePerKey(ds: seq<Detection>) {
    forall i | 0 <= i < |ds| :: FirstSurface(ds, CacheKey(ds[i])) == Some(ds[i].surface)
  }

  /** When every key has one surface, restoring gives exactly the neutralised input. */
  lemma SameSurfacesRestoreAll(o: Detectors, text: string, profile: PolicyProfile, mode: Mode)
    requires OneSurfacePerKey(PolicyDetectionsIn(o, text, profile, mode))
    ensures PolicyRestored(o, text, profile, mode) == NeutraliseUserPlaceholders(text)
  {
    if text != "" {
      var t := NeutraliseUserPlaceholders(text);
      var ds := PolicyDetections(o, t, profile, mode);
      PolicyMaskedParts(o, text, profile, mode);
      assert PolicyRestored(o, text, profile, mode) == Splice(t, ds, FirstSurfaces(ds));
      assert PolicyDetectionsIn(o, text, profile, mode) == ds;
      hide *;
      SameFirstSurfaces(ds);
      SpliceSurfaces(t, ds);
    }
  }

  lemma SameFirstSurfaces(ds: seq<Detection>)
    requires OneSurfacePerKey(ds)
    ensures FirstSurfaces(ds) == Surfaces(ds)
  {}

  /** In degraded and emergency mode every key has. */
  lemma RegexModesOneSurface(o: Detectors, text: string, profile: PolicyProfile, mode: Mode)
    requires mode != Full
    ensures OneSurfacePerKey(PolicyDetectionsIn(o, text, profile, mode))
  {
    var ds := PolicyDetectionsIn(o, text, profile, mode);
    forall d | d in ds ensures CacheKey(d) == d.surface {
      RegexModesLiteral(o, NeutraliseUserPlaceholders(text), profile, mode, d);
    }
    hide PolicyDetectionsIn, FirstSurface, CacheKey;
    forall i | 0 <= i < |ds| ensures FirstSurface(ds, CacheKey(ds[i])) == Some(ds[i].surface) {
      LiteralFirstSurface(ds, i);
    }
  }

  lemma RegexModesRestoreAll(o: Detectors, text: string, profile: PolicyProfile, mode: Mode)
    requires mode != Full
    ensures PolicyRestored(o, text, profile, mode) == NeutraliseUserPlaceholders(text)
  {
    hide *;
    RegexModesOneSurface(o, text, profile, mode);
    SameSurfacesRestoreAll(o, text, profile, mode);
  }

  lemma RegexModesLiteral(o: Detectors, t: string, profile: PolicyProfile, mode: Mode, d: Detection)
    requires mode != Full && d in PolicyDetections(o, t, profile, mode)
    ensures CacheKey(d) == d.surface
  {
    var cs := PolicyCandidates(o, t, profile, mode);
    var regex := RegexCandidates(o, t, mode != Emergency, |PATTERNS|);
    RegexCandidatesWithin(o, t, mode != Emergency, |PATTERNS|);
    assert cs == regex;
    PolicySelection(o, t, profile, mode);
    AllowedKeepsOrder(SortByStart(Greedy(cs)), profile.maskCategories);
    SortKeepsMembers(Greedy(cs));
    GreedyApart(cs, t);
  }
}
