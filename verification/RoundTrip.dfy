/** Masking any number of texts through one mapping, and unmasking them with the mapping that
    results (`mask_text` and `unmask_text` of `pii/masker.py` used together). */
module RoundTrip {
  import opened Placeholders
  import opened Neutralise
  import opened Detection
  import opened Mappings
  import opened Splicing
  import opened Masking

  /** What the placeholder of each detection restores to. */
  ghost function RestoredSurfaces(m: Mapping, ds: seq<Detection>): seq<string> {
    seq(|ds|, i requires 0 <= i < |ds| => RestoredSurface(m, CacheKey(ds[i])))
  }

  ghost function RestoredSurface(m: Mapping, key: string): string {
    if key in m.forward then Entry(m.reverse, m.forward[key]) else key
  }

  /** The neutralised text with every detected span replaced by what its key restores to. */
  ghost function RestoredText(o: Detectors, m: Mapping, text: string): string {
    if text == "" then ""
    else
      var t := NeutraliseUserPlaceholders(text);
      DetectionsPlaced(o, t);
      Splice(t, Detections(o, t), RestoredSurfaces(m, Detections(o, t)))
  }

  /** The detections masking a text acts on. */
  ghost function DetectionsIn(o: Detectors, text: string): seq<Detection> {
    if text == "" then [] else Detections(o, NeutraliseUserPlaceholders(text))
  }

  lemma DetectionsInNarrow(o: Detectors, text: string)
    ensures forall d | d in DetectionsIn(o, text) :: d.category in NARROW_TYPES
  {
    if text != "" {
      DetectionsPlaced(o, NeutraliseUserPlaceholders(text));
    }
  }

  lemma MaskedMapping(o: Detectors, m: Mapping, text: string)
    ensures Masked(o, m, text).0 == IssueAll(m, DetectionsIn(o, text)).0
  {}

  lemma MaskedGrown(o: Detectors, m: Mapping, text: string)
    requires Grown(m)
    ensures Grown(Masked(o, m, text).0) && Extends(m, Masked(o, m, text).0)
  {
    hide Grown, Extends, Masked, IssueAll, DetectionsIn;
    DetectionsInNarrow(o, text);
    MaskedMapping(o, m, text);
    IssueAllKeepsGrown(m, DetectionsIn(o, text));
  }

  lemma IssuedArePlaceholders(m: Mapping, ds: seq<Detection>)
    requires Grown(m) && forall d | d in ds :: d.category in NARROW_TYPES
    ensures forall i | 0 <= i < |ds| :: IsPlaceholder(Narrow, IssueAll(m, ds).1[i])
  {
    var r := IssueAll(m, ds);
    IssueAllKeepsGrown(m, ds);
    GrownPlaceholders(r.0);
    hide IssueAll, IsPlaceholder;
    forall i | 0 <= i < |ds| ensures IsPlaceholder(Narrow, r.1[i]) {
      IssuedIsForward(m, ds, i);
    }
  }

  /** The narrow matches in masked text are exactly the placeholders put in, in order. */
  lemma MaskedMatches(o: Detectors, m: Mapping, text: string)
    requires Grown(m)
    ensures Matches(Narrow, Masked(o, m, text).1) == IssueAll(m, DetectionsIn(o, text)).1
  {
    if text != "" {
      hide Matches, Grown;
      var t := NeutraliseUserPlaceholders(text);
      var ds := Detections(o, t);
      DetectionsPlaced(o, t);
      NeutralisedMatchFree(text);
      IssuedArePlaceholders(m, ds);
      hide *;
      ScanSplice(t, ds, IssueAll(m, ds).1, map[]);
    }
  }

  /** Unmasking with any mapping that extends the one masking left puts back, at every span,
      the surface recorded for its key. */
  lemma UnmaskMasked(o: Detectors, m: Mapping, text: string, final: Mapping)
    requires Grown(m) && Extends(Masked(o, m, text).0, final)
    ensures Unmasked(final.reverse, Masked(o, m, text).1) == RestoredText(o, final, text)
  {
    UnmaskedIsSubstitute(final.reverse, Masked(o, m, text).1);
    if text != "" {
      var t := NeutraliseUserPlaceholders(text);
      var ds := Detections(o, t);
      var r := IssueAll(m, ds);
      DetectionsPlaced(o, t);
      NeutralisedMatchFree(text);
      IssuedArePlaceholders(m, ds);
      RestoredAreEntries(m, ds, final);
      assert Masked(o, m, text) == (r.0, Splice(t, ds, r.1));
      assert RestoredText(o, final, text) == Splice(t, ds, RestoredSurfaces(final, ds));
      hide *;
      ScanSplice(t, ds, r.1, final.reverse);
    }
  }

  lemma RestoredAreEntries(m: Mapping, ds: seq<Detection>, final: Mapping)
    requires Grown(m) && forall d | d in ds :: d.category in NARROW_TYPES
    requires Extends(IssueAll(m, ds).0, final)
    ensures Entries(final.reverse, IssueAll(m, ds).1) == RestoredSurfaces(final, ds)
  {
    hide Grown, Extends, IssueAll, CacheKey;
    var r := IssueAll(m, ds);
    forall i | 0 <= i < |ds|
      ensures Entry(final.reverse, r.1[i]) == RestoredSurface(final, CacheKey(ds[i]))
    {
      IssuedIsForward(m, ds, i);
      ExtendsForward(r.0, final, CacheKey(ds[i]));
    }
  }

  /** When every detection is keyed by its surface, as all but names are, unmasking gives back
      exactly the neutralised text. */
  lemma LiteralRoundTrip(o: Detectors, m: Mapping, text: string, final: Mapping)
    requires Grown(m) && Extends(Masked(o, m, text).0, final) && Literal(final)
    requires forall d | d in DetectionsIn(o, text) :: CacheKey(d) == d.surface
    ensures Unmasked(final.reverse, Masked(o, m, text).1) == NeutraliseUserPlaceholders(text)
  {
    UnmaskMasked(o, m, text, final);
    if text != "" {
      var t := NeutraliseUserPlaceholders(text);
      var ds := Detections(o, t);
      DetectionsPlaced(o, t);
      assert Masked(o, m, text).0 == IssueAll(m, ds).0;
      assert RestoredText(o, final, text) == Splice(t, ds, RestoredSurfaces(final, ds));
      assert forall i | 0 <= i < |ds| :: ds[i] in ds;
      LiteralSurfaces(m, ds, final);
      hide *;
      SpliceSurfaces(t, ds);
    }
  }

  lemma LiteralSurfaces(m: Mapping, ds: seq<Detection>, final: Mapping)
    requires Grown(m) && Extends(IssueAll(m, ds).0, final) && Literal(final)
    requires forall d | d in ds :: d.category in NARROW_TYPES && CacheKey(d) == d.surface
    ensures RestoredSurfaces(final, ds) == Surfaces(ds)
  {
    hide Grown, Extends, IssueAll, CacheKey;
    forall i | 0 <= i < |ds| ensures RestoredSurface(final, CacheKey(ds[i])) == ds[i].surface {
      IssuedIsForward(m, ds, i);
      ExtendsForward(IssueAll(m, ds).0, final, CacheKey(ds[i]));
    }
  }

  // --------------------------------------------------------------- many texts, one mapping

  ghost function MaskAll(o: Detectors, m: Mapping, texts: seq<string>): (r: (Mapping, seq<string>))
    ensures |r.1| == |texts|
  {
    if texts == [] then (m, [])
    else
      var front := MaskAll(o, m, texts[..|texts| - 1]);
      var last := Masked(o, front.0, texts[|texts| - 1]);
      (last.0, front.1 + [last.1])
  }

  /** All detections masking the texts acts on, in order. */
  ghost function AllDetections(o: Detectors, texts: seq<string>): seq<Detection> {
    if texts == [] then []
    else AllDetections(o, texts[..|texts| - 1]) + DetectionsIn(o, texts[|texts| - 1])
  }

  lemma {:induction false} AllDetectionsNarrow(o: Detectors, texts: seq<string>)
    ensures forall d | d in AllDetections(o, texts) :: d.category in NARROW_TYPES
  {
    if texts != [] {
      AllDetectionsNarrow(o, texts[..|texts| - 1]);
      DetectionsInNarrow(o, texts[|texts| - 1]);
    }
  }

  /** Masking text after text issues placeholders to one long list of detections. */
  lemma {:induction false} MaskAllIsIssueAll(o: Detectors, m: Mapping, texts: seq<string>)
    ensures MaskAll(o, m, texts).0 == IssueAll(m, AllDetections(o, texts)).0
  {
    if texts != [] {
      hide Masked, DetectionsIn;
      var n := |texts| - 1;
      var front := MaskAll(o, m, texts[..n]).0;
      MaskAllIsIssueAll(o, m, texts[..n]);
      MaskedMapping(o, front, texts[n]);
      hide IssueAll;
      IssueAllAppend(m, AllDetections(o, texts[..n]), DetectionsIn(o, texts[n]));
    }
  }

  /** Whatever was masked so far, the mapping is grown, and each key restores to the surface
      that the first detection of it had, over all texts. */
  lemma FinalMapping(o: Detectors, texts: seq<string>, key: string)
    ensures var m := MaskAll(o, EMPTY, texts).0;
      && Grown(m)
      && (key in m.forward <==> FirstSurface(AllDetections(o, texts), key).Some?)
      && (key in m.forward ==> RestoredSurface(m, key) == FirstSurface(AllDetections(o, texts), key).value)
  {
    hide Grown, AllDetections, MaskAll, IssueAll, FirstSurface;
    var ds := AllDetections(o, texts);
    MaskAllIsIssueAll(o, EMPTY, texts);
    AllDetectionsNarrow(o, texts);
    EmptyIsGrown();
    IssueAllKeepsGrown(EMPTY, ds);
    FirstSurfaceRecorded(ds, key);
  }

  /** Across all texts, two detections share a placeholder exactly when they share a key. */
  lemma PlaceholdersAcrossTexts(o: Detectors, texts: seq<string>, i: nat, j: nat)
    requires i < |AllDetections(o, texts)| && j < |AllDetections(o, texts)|
    ensures var ds := AllDetections(o, texts);
      var r := IssueAll(EMPTY, ds);
      && MaskAll(o, EMPTY, texts).0 == r.0
      && (r.1[i] == r.1[j] <==> CacheKey(ds[i]) == CacheKey(ds[j]))
  {
    MaskAllIsIssueAll(o, EMPTY, texts);
    AllDetectionsNarrow(o, texts);
    EmptyIsGrown();
    SamePlaceholderIffSameKey(EMPTY, AllDetections(o, texts), i, j);
  }
}
