/** What the selection is, type by type: for each expression its type, its check, and the types
    that come before it; then the names; and what policies and modes make of it
    (`pii/masker.py` and `_mask_with_policy` of `pipeline.py`). */
module SelectionByType {
  import opened Text
  import opened Placeholders
  import opened Checksums
  import opened Detection
  import opened Masking
  import opened Policy
  import opened DegradedMode
  import opened PolicyMasking

  /** The spans chosen for the first `n` expressions. */
  ghost function After(o: Detectors, text: string, checksums: bool, n: nat): seq<Detection>
    requires n <= |PATTERNS|
  {
    Greedy(RegexCandidates(o, text, checksums, n))
  }

  /** `d` is a match of expression `i`, with its text and this type. */
  ghost predicate Found(o: Detectors, text: string, i: nat, category: string, d: Detection) {
    && Span(d.start, d.end) in o.findIter(i, text)
    && d.start < d.end <= |text|
    && d == Detection(d.start, d.end, category, text[d.start..d.end], None, 1.0)
  }

  /** Expression `i` adds exactly its matches that are accepted and meet nothing chosen before. */
  ghost predicate Takes(o: Detectors, text: string, checksums: bool, i: nat, category: string, accepted: string -> bool)
    requires i < |PATTERNS|
  {
    var before := After(o, text, checksums, i);
    forall d :: d in After(o, text, checksums, i + 1) <==>
      d in before || (Found(o, text, i, category, d) && (checksums ==> accepted(d.surface)) && !Clashes(d, before))
  }

  // -------------------------------------------------------------------- one expression

  ghost predicate Apart(cs: seq<Candidate>) {
    forall j, k | 0 <= j < k < |cs| :: !Meets(cs[k].d, cs[j].d)
  }

  ghost predicate Added(before: seq<Detection>, mine: seq<Candidate>, n: nat, d: Detection)
    requires n <= |mine|
  {
    exists k | 0 <= k < n :: mine[k].accepted && mine[k].d == d && !Clashes(d, before)
  }

  lemma ClashesApart(d: Detection, before: seq<Detection>, after: seq<Detection>)
    requires forall x | x in before :: x in after
    requires forall x | x in after && x !in before :: !Meets(d, x)
    ensures Clashes(d, after) <==> Clashes(d, before)
  {
    if i :| 0 <= i < |after| && Meets(d, after[i]) {
      assert after[i] in before;
      var k :| 0 <= k < |before| && before[k] == after[i];
    }
    if i :| 0 <= i < |before| && Meets(d, before[i]) {
      assert before[i] in after;
      var k :| 0 <= k < |after| && after[k] == before[i];
    }
  }

  /** Candidates that keep apart do not stand in each other's way. */
  lemma {:induction false} GreedyAdds(cs: seq<Candidate>, mine: seq<Candidate>, n: nat)
    requires Apart(mine) && n <= |mine|
    ensures forall d :: d in Greedy(cs + mine[..n]) <==> d in Greedy(cs) || Added(Greedy(cs), mine, n, d)
  {
    var before := Greedy(cs);
    if n == 0 {
      assert cs + mine[..0] == cs;
    } else {
      var last, front := mine[n - 1], Greedy(cs + mine[..n - 1]);
      GreedyAdds(cs, mine, n - 1);
      assert cs + mine[..n] == (cs + mine[..n - 1]) + [last];
      GreedySnoc(cs + mine[..n - 1], last);
      hide Greedy, Clashes, Meets;
      forall x | x in front && x !in before ensures !Meets(last.d, x) {
        assert Added(before, mine, n - 1, x);
      }
      ClashesApart(last.d, before, front);
      AddedOneMore(before, mine, n);
    }
  }

  lemma AddedOneMore(before: seq<Detection>, mine: seq<Candidate>, n: nat)
    requires 0 < n <= |mine|
    ensures var last := mine[n - 1];
      forall d :: Added(before, mine, n, d) <==>
        Added(before, mine, n - 1, d) || (last.accepted && d == last.d && !Clashes(d, before))
  {
    hide Clashes;
    forall d ensures Added(before, mine, n, d) <==>
      Added(before, mine, n - 1, d) || (mine[n - 1].accepted && d == mine[n - 1].d && !Clashes(d, before))
    {
      if k :| 0 <= k < n - 1 && mine[k].accepted && mine[k].d == d && !Clashes(d, before) {
        assert mine[k].d == d;
      }
    }
  }

  lemma MatchesApart(o: Detectors, text: string, checksums: bool, i: nat)
    requires i < |PATTERNS|
    ensures Apart(PatternCandidates(o, text, checksums, i))
  {
    var spans, mine := o.findIter(i, text), PatternCandidates(o, text, checksums, i);
    assert LeftToRight(spans);
    forall j, k | 0 <= j < k < |mine| ensures !Meets(mine[k].d, mine[j].d) {
      PatternCandidate(o, text, checksums, i, j);
      PatternCandidate(o, text, checksums, i, k);
      hide PatternCandidates;
    }
  }

  lemma AddedIsFound(o: Detectors, text: string, checksums: bool, i: nat, before: seq<Detection>, d: Detection)
    requires i < |PATTERNS|
    ensures var mine := PatternCandidates(o, text, checksums, i);
      Added(before, mine, |mine|, d) <==>
        && Found(o, text, i, PATTERNS[i].category, d)
        && (checksums ==> Accepts(PATTERNS[i].validator, d.surface))
        && !Clashes(d, before)
  {
    var spans, mine := o.findIter(i, text), PatternCandidates(o, text, checksums, i);
    hide PatternCandidates, Clashes, Accepts;
    if Added(before, mine, |mine|, d) {
      var k :| 0 <= k < |mine| && mine[k].accepted && mine[k].d == d && !Clashes(d, before);
      PatternCandidate(o, text, checksums, i, k);
      assert spans[k] in spans;
    }
    if Found(o, text, i, PATTERNS[i].category, d) {
      var k :| 0 <= k < |spans| && spans[k] == Span(d.start, d.end);
      PatternCandidate(o, text, checksums, i, k);
      assert mine[k].d == d;
    }
  }

  lemma TakesOne(o: Detectors, text: string, checksums: bool, i: nat, accepted: string -> bool)
    requires i < |PATTERNS| && forall s :: accepted(s) == Accepts(PATTERNS[i].validator, s)
    ensures Takes(o, text, checksums, i, PATTERNS[i].category, accepted)
  {
    var cs, mine := RegexCandidates(o, text, checksums, i), PatternCandidates(o, text, checksums, i);
    MatchesApart(o, text, checksums, i);
    GreedyAdds(cs, mine, |mine|);
    assert mine[..|mine|] == mine && RegexCandidates(o, text, checksums, i + 1) == cs + mine;
    hide Greedy, RegexCandidates, PatternCandidates, Added, Found, Accepts;
    forall d {
      AddedIsFound(o, text, checksums, i, Greedy(cs), d);
    }
  }

  /** The ten expressions in order of priority: each one's type and check. In full and degraded
      mode the checks count, in emergency mode they do not. */
  lemma ChosenByType(o: Detectors, text: string, checksums: bool)
    ensures |PATTERNS| == 10 && After(o, text, checksums, 0) == []
    ensures Takes(o, text, checksums, 0, "BANK_ACCOUNT", s => true)
    ensures Takes(o, text, checksums, 1, "CARD", s => IsCardNumber(s))
    ensures Takes(o, text, checksums, 2, "OGRNIP", s => Ogrnip(s))
    ensures Takes(o, text, checksums, 3, "OGRN", s => Ogrn(s))
    ensures Takes(o, text, checksums, 4, "INN", s => Inn12(s))
    ensures Takes(o, text, checksums, 5, "PHONE", s => |Strip(s)| == 11 && (Strip(s)[0] == '7' || Strip(s)[0] == '8'))
    ensures Takes(o, text, checksums, 6, "SNILS", s => Snils(s))
    ensures Takes(o, text, checksums, 7, "INN", s => Inn10(s))
    ensures Takes(o, text, checksums, 8, "PASSPORT", s => true)
    ensures Takes(o, text, checksums, 9, "EMAIL", s => true)
  {
    hide Takes, IsCardNumber, Ogrnip, Ogrn, Inn12, Snils, Inn10, Strip;
    assert After(o, text, checksums, 0) == [];
    TakesOne(o, text, checksums, 0, s => true);
    TakesOne(o, text, checksums, 1, s => IsCardNumber(s));
    TakesOne(o, text, checksums, 2, s => Ogrnip(s));
    TakesOne(o, text, checksums, 3, s => Ogrn(s));
    TakesOne(o, text, checksums, 4, s => Inn12(s));
    TakesOne(o, text, checksums, 5, s => |Strip(s)| == 11 && (Strip(s)[0] == '7' || Strip(s)[0] == '8'));
    TakesOne(o, text, checksums, 6, s => Snils(s));
    TakesOne(o, text, checksums, 7, s => Inn10(s));
    TakesOne(o, text, checksums, 8, s => true);
    TakesOne(o, text, checksums, 9, s => true);
  }

  lemma {:induction false} AfterGrows(o: Detectors, text: string, checksums: bool, i: nat, n: nat)
    requires i <= n <= |PATTERNS|
    ensures forall d | d in After(o, text, checksums, i) :: d in After(o, text, checksums, n)
  {
    if i < n {
      AfterGrows(o, text, checksums, i, n - 1);
      var cs, mine := RegexCandidates(o, text, checksums, n - 1), PatternCandidates(o, text, checksums, n - 1);
      MatchesApart(o, text, checksums, n - 1);
      GreedyAdds(cs, mine, |mine|);
      assert mine[..|mine|] == mine && RegexCandidates(o, text, checksums, n) == cs + mine;
    }
  }

  /** Accepted matches of expression `i` meet something chosen, maybe themselves. */
  ghost predicate AcceptedMet(o: Detectors, text: string, checksums: bool, i: nat, category: string,
                              accepted: string -> bool)
  {
    forall d | Found(o, text, i, category, d) && (checksums ==> accepted(d.surface)) ::
      Clashes(d, After(o, text, checksums, |PATTERNS|))
  }

  lemma TakesMeets(o: Detectors, text: string, checksums: bool, i: nat, category: string, accepted: string -> bool)
    requires i < |PATTERNS| && Takes(o, text, checksums, i, category, accepted)
    ensures AcceptedMet(o, text, checksums, i, category, accepted)
  {
    hide After, Clashes, Takes, Found;
    forall d | Found(o, text, i, category, d) && (checksums ==> accepted(d.surface))
      ensures Clashes(d, After(o, text, checksums, |PATTERNS|))
    {
      OneMeets(o, text, checksums, i, category, accepted, d);
    }
  }

  lemma OneMeets(o: Detectors, text: string, checksums: bool, i: nat, category: string, accepted: string -> bool,
                 d: Detection)
    requires i < |PATTERNS| && Takes(o, text, checksums, i, category, accepted)
    requires Found(o, text, i, category, d) && (checksums ==> accepted(d.surface))
    ensures Clashes(d, After(o, text, checksums, |PATTERNS|))
  {
    hide After, Clashes;
    var before, after, all :=
      After(o, text, checksums, i), After(o, text, checksums, i + 1), After(o, text, checksums, |PATTERNS|);
    assert d.start < d.end && (Clashes(d, before) || d in after);
    hide *;
    AfterGrows(o, text, checksums, i, |PATTERNS|);
    AfterGrows(o, text, checksums, i + 1, |PATTERNS|);
    NoClashPart(d, before, all);
    NoClashPart(d, after, all);
    MeetsItself(d, after);
  }

  lemma MeetsItself(d: Detection, ds: seq<Detection>)
    requires d.start < d.end
    ensures d in ds ==> Clashes(d, ds)
  {
    if i :| 0 <= i < |ds| && ds[i] == d { assert Meets(d, ds[i]); }
  }

  /** An accepted number of any type is never left without a chosen span that meets it. */
  lemma NoAcceptedNumberMissed(o: Detectors, text: string, checksums: bool)
    ensures AcceptedMet(o, text, checksums, 0, "BANK_ACCOUNT", s => true)
    ensures AcceptedMet(o, text, checksums, 1, "CARD", s => IsCardNumber(s))
    ensures AcceptedMet(o, text, checksums, 2, "OGRNIP", s => Ogrnip(s))
    ensures AcceptedMet(o, text, checksums, 3, "OGRN", s => Ogrn(s))
    ensures AcceptedMet(o, text, checksums, 4, "INN", s => Inn12(s))
    ensures AcceptedMet(o, text, checksums, 5, "PHONE",
                        s => |Strip(s)| == 11 && (Strip(s)[0] == '7' || Strip(s)[0] == '8'))
    ensures AcceptedMet(o, text, checksums, 6, "SNILS", s => Snils(s))
    ensures AcceptedMet(o, text, checksums, 7, "INN", s => Inn10(s))
    ensures AcceptedMet(o, text, checksums, 8, "PASSPORT", s => true)
    ensures AcceptedMet(o, text, checksums, 9, "EMAIL", s => true)
  {
    ChosenByType(o, text, checksums);
    hide *;
    TakesMeets(o, text, checksums, 0, "BANK_ACCOUNT", s => true);
    TakesMeets(o, text, checksums, 1, "CARD", s => IsCardNumber(s));
    TakesMeets(o, text, checksums, 2, "OGRNIP", s => Ogrnip(s));
    TakesMeets(o, text, checksums, 3, "OGRN", s => Ogrn(s));
    TakesMeets(o, text, checksums, 4, "INN", s => Inn12(s));
    TakesMeets(o, text, checksums, 5, "PHONE", s => |Strip(s)| == 11 && (Strip(s)[0] == '7' || Strip(s)[0] == '8'));
    TakesMeets(o, text, checksums, 6, "SNILS", s => Snils(s));
    TakesMeets(o, text, checksums, 7, "INN", s => Inn10(s));
    TakesMeets(o, text, checksums, 8, "PASSPORT", s => true);
    TakesMeets(o, text, checksums, 9, "EMAIL", s => true);
  }

  // ------------------------------------------------------------------------------ names

  /** How confident the recogniser is; a span without a confidence counts as certain. */
  function Confidence(p: Person): real {
    if p.confidence.Some? then p.confidence.value else 1.0
  }

  predicate Enough(p: Person, minimum: Option<real>) {
    minimum.Some? ==> Confidence(p) >= minimum.value
  }

  ghost function NameOf(p: Person): Detection {
    Detection(p.start, p.end, "NAME", p.surface, Some(p.normalized), Confidence(p))
  }

  ghost predicate IsName(o: Detectors, text: string, minimum: Option<real>, d: Detection) {
    exists p :: p in o.findPersons(text) && Enough(p, minimum) && d == NameOf(p)
  }

  /** What adding the names that are confident enough makes of the regex spans: those stay; a name is
      added only where it meets none of them; and none is left out that meets nothing chosen. */
  ghost predicate NamesAdded(o: Detectors, text: string, minimum: Option<real>, regex: seq<Detection>,
                             all: seq<Detection>) {
    && (forall d | d in regex :: d in all)
    && (forall d | d in all && d !in regex :: !Clashes(d, regex) && IsName(o, text, minimum, d))
    && (forall p | p in o.findPersons(text) && Enough(p, minimum) :: Clashes(NameOf(p), all))
  }

  lemma {:induction false} GreedyMore(cs: seq<Candidate>, more: seq<Candidate>)
    ensures forall d | d in Greedy(cs) :: d in Greedy(cs + more)
    ensures forall d | d in Greedy(cs + more) && d !in Greedy(cs) ::
      !Clashes(d, Greedy(cs)) && exists k :: 0 <= k < |more| && more[k].accepted && more[k].d == d
  {
    if more == [] {
      assert cs + more == cs;
    } else {
      var n := |more| - 1;
      var front := more[..n];
      GreedyMore(cs, front);
      assert cs + more == (cs + front) + [more[n]];
      GreedySnoc(cs + front, more[n]);
      hide Greedy, Meets;
      NoClashPart(more[n].d, Greedy(cs), Greedy(cs + front));
      forall d | d in Greedy(cs + more) && d !in Greedy(cs)
        ensures !Clashes(d, Greedy(cs)) && exists k :: 0 <= k < |more| && more[k].accepted && more[k].d == d
      {
        if d in Greedy(cs + front) {
          var k :| 0 <= k < |front| && front[k].accepted && front[k].d == d;
          assert more[k] == front[k];
        } else {
          assert more[n].accepted && more[n].d == d;
        }
      }
    }
  }

  lemma NoClashPart(d: Detection, part: seq<Detection>, all: seq<Detection>)
    requires forall x | x in part :: x in all
    ensures !Clashes(d, all) ==> !Clashes(d, part)
  {
    if i :| 0 <= i < |part| && Meets(d, part[i]) {
      assert part[i] in all;
      var k :| 0 <= k < |all| && all[k] == part[i];
    }
  }

  lemma PersonCandidate(o: Detectors, text: string, minimum: Option<real>, j: nat)
    requires j < |o.findPersons(text)|
    ensures var p := o.findPersons(text)[j];
      && NameOf(p).start < NameOf(p).end
      && PersonCandidates(o, text, minimum)[j] == Candidate(
           NameOf(p), Enough(p, minimum))
  {
    assert o.findPersons(text)[j] in o.findPersons(text);
  }

  lemma NamesAfterRegex(o: Detectors, text: string, checksums: bool, minimum: Option<real>)
    ensures NamesAdded(o, text, minimum, After(o, text, checksums, |PATTERNS|),
                       Greedy(RegexCandidates(o, text, checksums, |PATTERNS|) + PersonCandidates(o, text, minimum)))
  {
    var cs, more := RegexCandidates(o, text, checksums, |PATTERNS|), PersonCandidates(o, text, minimum);
    var regex, all, ps := Greedy(cs), Greedy(cs + more), o.findPersons(text);
    GreedyMore(cs, more);
    hide RegexCandidates, PersonCandidates, Greedy, Clashes, Confidence, NameOf;
    forall d | d in all && d !in regex ensures IsName(o, text, minimum, d) {
      var k :| 0 <= k < |more| && more[k].accepted && more[k].d == d;
      PersonCandidate(o, text, minimum, k);
      assert ps[k] in ps;
    }
    forall p | p in ps && Enough(p, minimum) ensures Clashes(NameOf(p), all) {
      var k :| 0 <= k < |ps| && ps[k] == p;
      PersonCandidate(o, text, minimum, k);
      assert (cs + more)[|cs| + k] == more[k];
      GreedyMaximal(cs + more, |cs| + k);
    }
  }

  /** The plain masker: all checks, and names however confident. */
  lemma CollectedByType(o: Detectors, text: string)
    ensures NamesAdded(o, text, None, After(o, text, true, |PATTERNS|), Greedy(MaskerCandidates(o, text)))
    ensures forall d :: d in Detections(o, text) <==> d in Greedy(MaskerCandidates(o, text))
  {
    NamesAfterRegex(o, text, true, None);
    SortKeepsMembers(Greedy(MaskerCandidates(o, text)));
    hide RegexCandidates, PersonCandidates, NamesAdded, Greedy, SortByStart;
  }

  // ---------------------------------------------------------------- modes and profiles

  /** What each mode selects before the policy filter. */
  lemma SelectedInMode(o: Detectors, text: string, profile: PolicyProfile)
    ensures Greedy(PolicyCandidates(o, text, profile, Emergency)) == After(o, text, false, |PATTERNS|)
    ensures Greedy(PolicyCandidates(o, text, profile, Degraded)) == After(o, text, true, |PATTERNS|)
    ensures NamesAdded(o, text, Some(profile.natashaMinConfidence), After(o, text, true, |PATTERNS|),
                       Greedy(PolicyCandidates(o, text, profile, Full)))
  {
    NamesAfterRegex(o, text, true, Some(profile.natashaMinConfidence));
    hide RegexCandidates, PersonCandidates, NamesAdded, Greedy;
    var regex := RegexCandidates(o, text, true, |PATTERNS|);
    assert regex + [] == regex;
    var unchecked := RegexCandidates(o, text, false, |PATTERNS|);
    assert unchecked + [] == unchecked;
  }

  /** The profiles: strict and balanced keep every type the maskers know, permissive exactly four;
      and how confident a name has to be. */
  lemma TypesOfProfile(profile: PolicyProfile, category: string)
    requires category in NARROW_TYPES
    ensures Profile("strict") == Some(profile) ==>
      IsAllowed(category, profile.maskCategories) && profile.natashaMinConfidence == 0.5
    ensures Profile("balanced") == Some(profile) ==>
      IsAllowed(category, profile.maskCategories) && profile.natashaMinConfidence == 0.75
    ensures Profile("permissive") == Some(profile) ==>
      && profile.natashaMinConfidence == 0.9
      && (IsAllowed(category, profile.maskCategories) <==>
            category == "PASSPORT" || category == "SNILS" || category == "INN" || category == "CARD")
  {}

  lemma ProfileNames(name: string)
    ensures Profile(name).Some? <==> name == "strict" || name == "balanced" || name == "permissive"
    ensures Profile(name).Some? ==> Profile(name).value.name == name
  {}

  /** The narrow expression knows exactly the types that are ever given. */
  lemma TypesAreNarrow(category: string)
    ensures category in NARROW_TYPES <==>
      category == "NAME" || exists i | 0 <= i < |PATTERNS| :: PATTERNS[i].category == category
  {
    if category in NARROW_TYPES && category != "NAME" {
      assert PATTERNS[0].category == "BANK_ACCOUNT" && PATTERNS[1].category == "CARD";
      assert PATTERNS[2].category == "OGRNIP";
      assert PATTERNS[3].category == "OGRN" && PATTERNS[4].category == "INN" && PATTERNS[5].category == "PHONE";
      assert PATTERNS[6].category == "SNILS" && PATTERNS[8].category == "PASSPORT" && PATTERNS[9].category == "EMAIL";
    }
  }

  /** What is masked is what was selected and is allowed. */
  lemma MaskedIsSelected(o: Detectors, text: string, profile: PolicyProfile, mode: Mode, d: Detection)
    ensures d in PolicyDetections(o, text, profile, mode) <==>
      d in Greedy(PolicyCandidates(o, text, profile, mode)) && IsAllowed(d.category, profile.maskCategories)
  {
    var g := Greedy(PolicyCandidates(o, text, profile, mode));
    PolicySelection(o, text, profile, mode);
    AllowedKeepsOrder(SortByStart(g), profile.maskCategories);
    SortKeepsMembers(g);
    hide Greedy, PolicyCandidates, SortByStart, Allowed, IsAllowed;
  }

  lemma {:induction false} RegexCertain(o: Detectors, text: string, checksums: bool, n: nat)
    requires n <= |PATTERNS|
    ensures forall c | c in RegexCandidates(o, text, checksums, n) ::
      c.d.confidence == 1.0 && c.d.category != "NAME" && c.d.normalized == None
  {
    if n > 0 {
      RegexCertain(o, text, checksums, n - 1);
      var mine := PatternCandidates(o, text, checksums, n - 1);
      forall j | 0 <= j < |mine|
        ensures mine[j].d.confidence == 1.0 && mine[j].d.category != "NAME" && mine[j].d.normalized == None
      {
        PatternCandidate(o, text, checksums, n - 1, j);
        assert PATTERNS[n - 1].category != "NAME";
      }
    }
  }

  ghost predicate CertainOrName(o: Detectors, text: string, mode: Mode, d: Detection) {
    && (d.category != "NAME" ==> d.confidence == 1.0 && d.normalized == None)
    && (d.category == "NAME" ==> mode == Full && exists p :: p in o.findPersons(text) && d == NameOf(p))
  }

  lemma CandidateKinds(o: Detectors, text: string, profile: PolicyProfile, mode: Mode)
    ensures AllWithin(PolicyCandidates(o, text, profile, mode), text)
    ensures forall c | c in PolicyCandidates(o, text, profile, mode) :: CertainOrName(o, text, mode, c.d)
  {
    var regex := RegexCandidates(o, text, mode != Emergency, |PATTERNS|);
    var minimum := Some(profile.natashaMinConfidence);
    var more := if mode == Full then PersonCandidates(o, text, minimum) else [];
    assert PolicyCandidates(o, text, profile, mode) == regex + more;
    RegexCertain(o, text, mode != Emergency, |PATTERNS|);
    RegexCandidatesWithin(o, text, mode != Emergency, |PATTERNS|);
    PersonCandidatesWithin(o, text, minimum);
    hide PolicyCandidates, RegexCandidates, PersonCandidates, Within;
    forall c | c in more ensures CertainOrName(o, text, mode, c.d) {
      var j :| 0 <= j < |more| && more[j] == c;
      PersonCandidate(o, text, minimum, j);
      assert o.findPersons(text)[j] in o.findPersons(text);
    }
  }

  /** Only names are uncertain, and they are found in full mode only, as the recogniser gives
      them. */
  lemma CertainUnlessName(o: Detectors, text: string, profile: PolicyProfile, mode: Mode, d: Detection)
    requires d in PolicyDetections(o, text, profile, mode)
    ensures CertainOrName(o, text, mode, d)
  {
    hide *;
    MaskedIsSelected(o, text, profile, mode, d);
    CandidateKinds(o, text, profile, mode);
    GreedyApart(PolicyCandidates(o, text, profile, mode), text);
  }
}
