/** Masking under a policy and a load mode (`_mask_with_policy` of `pipeline.py`). */
module PolicyMasking {
  import opened Text
  import opened Placeholders
  import opened Neutralise
  import opened Detection
  import opened Mappings
  import opened Splicing
  import opened Masking
  import opened Policy
  import opened DegradedMode

  /** `_CATEGORY_ALIASES`: the policy's name for a masker category. */
  function Alias(category: string): string {
    match category
    case "NAME" => "PERSON"
    case "PHONE" => "PHONE_RU"
    case "PASSPORT" => "PASSPORT_RU"
    case _ => category
  }

  /** `_is_allowed` */
  predicate IsAllowed(category: string, allowed: set<string>) {
    category in allowed || Alias(category) in allowed
  }

  function PolicyCandidates(o: Detectors, text: string, profile: PolicyProfile, mode: Mode): seq<Candidate> {
    RegexCandidates(o, text, mode != Emergency, |PATTERNS|)
    + if mode == Full then PersonCandidates(o, text, Some(profile.natashaMinConfidence)) else []
  }

  function Allowed(ds: seq<Detection>, allowed: set<string>): seq<Detection> {
    if ds == [] then []
    else
      var d := ds[|ds| - 1];
      Allowed(ds[..|ds| - 1], allowed) + if IsAllowed(d.category, allowed) then [d] else []
  }

  /** The detections that remain after selection, sorting and the policy filter. */
  function PolicyDetections(o: Detectors, text: string, profile: PolicyProfile, mode: Mode): seq<Detection> {
    Allowed(SortByStart(Greedy(PolicyCandidates(o, text, profile, mode))), profile.maskCategories)
  }

  /** One entry of `info_map`, in insertion order. */
  datatype Info = Info(placeholder: string, original: string, category: string, confidence: real)

  function InfoOf(ds: seq<Detection>): seq<Info> {
    if ds == [] then []
    else
      var n := |ds| - 1;
      var m := IssueAll(EMPTY, ds[..n]).0;
      var d := ds[n];
      if CacheKey(d) in m.forward then InfoOf(ds[..n])
      else InfoOf(ds[..n]) + [Info(Issue(m, d).1, d.surface, d.category, d.confidence)]
  }

  /** Placeholder to original, as the caller stores it. */
  function Originals(info: seq<Info>): map<string, string> {
    if info == [] then map[]
    else Originals(info[..|info| - 1])[info[|info| - 1].placeholder := info[|info| - 1].original]
  }

  /** `_mask_with_policy` as a function. */
  ghost function PolicyMasked(o: Detectors, text: string, profile: PolicyProfile, mode: Mode): (string, seq<Info>) {
    if text == "" then ("", [])
    else
      var t := NeutraliseUserPlaceholders(text);
      var ds := PolicyDetections(o, t, profile, mode);
      PolicyDetectionsPlaced(o, t, profile, mode);
      (Splice(t, ds, IssueAll(EMPTY, ds).1), InfoOf(ds))
  }

  // ---------------------------------------------------------------- spans stay in order

  lemma {:induction false} AllowedKeepsOrder(ds: seq<Detection>, allowed: set<string>)
    requires InOrder(ds)
    ensures InOrder(Allowed(ds, allowed))
    ensures forall d :: d in Allowed(ds, allowed) <==> d in ds && IsAllowed(d.category, allowed)
  {
    hide IsAllowed;
    if ds != [] {
      var n := |ds| - 1;
      AllowedKeepsOrder(ds[..n], allowed);
      assert ds == ds[..n] + [ds[n]];
      assert forall x | x in ds[..n] :: x.end <= ds[n].start;
      InOrderSnoc(Allowed(ds[..n], allowed), ds[n]);
    }
  }

  lemma PolicySelection(o: Detectors, text: string, profile: PolicyProfile, mode: Mode)
    ensures Selection(SortByStart(Greedy(PolicyCandidates(o, text, profile, mode))), text)
  {
    RegexCandidatesWithin(o, text, mode != Emergency, |PATTERNS|);
    PersonCandidatesWithin(o, text, Some(profile.natashaMinConfidence));
    GreedySelection(PolicyCandidates(o, text, profile, mode), text);
  }

  lemma PolicyDetectionsPlaced(o: Detectors, text: string, profile: PolicyProfile, mode: Mode)
    ensures Placed(text, PolicyDetections(o, text, profile, mode))
    ensures forall d | d in PolicyDetections(o, text, profile, mode) ::
      Within(d, text) && IsAllowed(d.category, profile.maskCategories)
  {
    var ds := PolicyDetections(o, text, profile, mode);
    PolicySelection(o, text, profile, mode);
    AllowedKeepsOrder(SortByStart(Greedy(PolicyCandidates(o, text, profile, mode))), profile.maskCategories);
    assert forall i | 0 <= i < |ds| :: ds[i] in ds;
  }

  // ------------------------------------------------------------------------- the method

  method MaskWithPolicy(o: Detectors, input: string, profile: PolicyProfile, mode: Mode)
    returns (masked: string, info: seq<Info>)
    ensures (masked, info) == PolicyMasked(o, input, profile, mode)
  {
    if input == "" {
      return "", [];
    }
    var text := NeutraliseUserPlaceholders(input);
    PolicyMaskedSteps(o, input, profile, mode);
    hide *;
    var selected := SelectSpans(o, text, profile, mode);
    var detections := Allowed(selected, profile.maskCategories);
    if detections == [] {
      return text, [];
    }
    masked, info := ReplaceSpans(text, detections);
  }

  lemma PolicyMaskedSteps(o: Detectors, input: string, profile: PolicyProfile, mode: Mode)
    requires input != ""
    ensures var text := NeutraliseUserPlaceholders(input);
      var ds := Allowed(SortByStart(Greedy(PolicyCandidates(o, text, profile, mode))), profile.maskCategories);
      && Placed(text, ds)
      && PolicyMasked(o, input, profile, mode) == (Splice(text, ds, IssueAll(EMPTY, ds).1), InfoOf(ds))
      && (ds == [] ==> PolicyMasked(o, input, profile, mode) == (text, []))
  {
    var text := NeutraliseUserPlaceholders(input);
    PolicyDetectionsPlaced(o, text, profile, mode);
    NothingSpliced(text);
    hide Greedy, SortByStart, Allowed, Splice, Placed;
  }

  lemma NothingSpliced(text: string)
    ensures Placed(text, []) && IssueAll(EMPTY, []).1 == [] && Splice(text, [], []) == text
  {}

  /** Both detection passes and the sort. */
  method SelectSpans(o: Detectors, text: string, profile: PolicyProfile, mode: Mode)
    returns (detections: seq<Detection>)
    ensures detections == SortByStart(Greedy(PolicyCandidates(o, text, profile, mode)))
  {
    hide Greedy, Clashes, Overlaps, RegexCandidates;
    var skipNatasha := mode == Degraded || mode == Emergency;
    var skipChecksums := mode == Emergency;
    var consumed;
    detections, consumed := RegexPass(o, text, skipChecksums);
    ghost var before := RegexCandidates(o, text, mode != Emergency, |PATTERNS|);
    if !skipNatasha {
      var persons := o.findPersons(text);
      ghost var mine := PersonCandidates(o, text, Some(profile.natashaMinConfidence));
      assert before + mine[..0] == before;
      for j := 0 to |persons|
        invariant detections == Greedy(before + mine[..j])
        invariant Consumed(consumed, detections)
      {
        var person := persons[j];
        CandidateStep(before, mine, j, consumed, detections);
        var span := Span(person.start, person.end);
        if Overlaps(span, consumed) {
          continue;
        }
        var confidence := person.confidence.GetOr(1.0);
        if confidence < profile.natashaMinConfidence {
          continue;
        }
        detections := detections + [
          Detection(person.start, person.end, "NAME", person.surface, Some(person.normalized), confidence)];
        consumed := consumed + [span];
      }
      assert mine[..|persons|] == mine;
    } else {
      assert before + [] == before;
    }
    detections := SortByStart(detections);
  }

  /** The replacing loop, with its own `forward`, `counters` and `info`. */
  method ReplaceSpans(text: string, detections: seq<Detection>) returns (masked: string, info: seq<Info>)
    requires Placed(text, detections)
    ensures masked == Splice(text, detections, IssueAll(EMPTY, detections).1)
    ensures info == InfoOf(detections)
  {
    var out: seq<string> := [];
    var cursor: nat := 0;
    var forward: map<string, string>, counters: map<string, nat> := map[], map[];
    info := [];
    ghost var m, fills := EMPTY, [];
    LoopStart(text, detections, EMPTY);
    assert detections[..0] == [] && InfoOf([]) == [];
    hide *;
    for i := 0 to |detections|
      invariant ReplacedSoFar(text, detections, i, EMPTY, m, fills, out, cursor)
      invariant forward == m.forward && counters == m.counters
      invariant info == InfoOf(detections[..i])
    {
      var d := detections[i];
      LoopBounds(text, detections, i, EMPTY, m, fills, out, cursor);
      ghost var front := out;
      if d.start > cursor {
        out := out + [text[cursor..d.start]];
      }
      InfoStep(text, detections, i, m, fills, front, cursor);
      var placeholder, isNew;
      placeholder, isNew, forward, counters := NextPlaceholder(d, forward, counters, m);
      if isNew {
        info := info + [Info(placeholder, d.surface, d.category, d.confidence)];
      }
      out := out + [placeholder];
      LoopStep(text, detections, i, EMPTY, m, fills, front, out, cursor);
      cursor := d.end;
      m, fills := Issue(m, d).0, fills + [placeholder];
    }
    assert detections[..|detections|] == detections;
    LoopEnd(text, detections, EMPTY, m, fills, out, cursor);
    if cursor < |text| {
      out := out + [text[cursor..]];
    }
    masked := Concat(out);
  }

  /** The lookup in `forward` and, for a new key, the next number of its type. */
  method NextPlaceholder(d: Detection, forward: map<string, string>, counters: map<string, nat>, ghost m: Mapping)
    returns (placeholder: string, isNew: bool, forward': map<string, string>, counters': map<string, nat>)
    requires forward == m.forward && counters == m.counters
    ensures isNew <==> CacheKey(d) !in m.forward
    ensures placeholder == Issue(m, d).1
    ensures forward' == Issue(m, d).0.forward && counters' == Issue(m, d).0.counters
  {
    forward', counters' := forward, counters;
    var cacheKey := if d.normalized.Some? then d.normalized.value else d.surface;
    isNew := cacheKey !in forward;
    if !isNew {
      placeholder := forward[cacheKey];
    } else {
      var n := (if d.category in counters then counters[d.category] else 0) + 1;
      counters' := counters[d.category := n];
      placeholder := Placeholder(d.category, n);
      forward' := forward[cacheKey := placeholder];
    }
  }

  lemma InfoStep(text: string, ds: seq<Detection>, i: nat, m: Mapping,
                 fills: seq<string>, out: seq<string>, cursor: nat)
    requires ReplacedSoFar(text, ds, i, EMPTY, m, fills, out, cursor) && i < |ds|
    ensures InfoOf(ds[..i + 1]) ==
      if CacheKey(ds[i]) in m.forward then InfoOf(ds[..i])
      else InfoOf(ds[..i]) + [Info(Issue(m, ds[i]).1, ds[i].surface, ds[i].category, ds[i].confidence)]
  {
    assert ds[..i + 1][..i] == ds[..i];
    hide Issue, CacheKey, SpliceTo, Placed;
  }
}
