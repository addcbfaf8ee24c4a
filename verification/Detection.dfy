/** Selecting PII spans by priority (`_collect_detections` of `pii/masker.py`, and the first
    half of `_mask_with_policy` of `pipeline.py`). The regular expressions and the name
    recogniser are oracles: any functions that return non-empty spans inside the text, for an
    expression from left to right and without overlap. */
module Detection {
  import opened Text
  import opened Placeholders
  import opened Checksums

  datatype Span = Span(start: nat, end: nat)

  /** `PersonSpan`. The class declares no confidence, so `getattr` falls back to 1.0; a
      recogniser that does report one is allowed for. */
  datatype Person = Person(start: nat, end: nat, surface: string, normalized: string, confidence: Option<real>)

  datatype Pattern = Pattern(category: string, validator: Validator)

  /** `_PATTERNS`, in order of priority. */
  const PATTERNS: seq<Pattern> := [
    Pattern("BANK_ACCOUNT", NoValidator),
    Pattern("CARD", LuhnCheck),
    Pattern("OGRNIP", OgrnipCheck),
    Pattern("OGRN", OgrnCheck),
    Pattern("INN", Inn12Check),
    Pattern("PHONE", PhoneCheck),
    Pattern("SNILS", SnilsCheck),
    Pattern("INN", Inn10Check),
    Pattern("PASSPORT", NoValidator),
    Pattern("EMAIL", NoValidator)
  ]

  /** `findIter` gives the matches of a pattern, by its index, in a text. */
  datatype Oracle = Oracle(findIter: (nat, string) -> seq<Span>, findPersons: string -> seq<Person>)

  predicate SpanWithin(s: Span, text: string) {
    s.start < s.end <= |text|
  }

  predicate PersonWithin(p: Person, text: string) {
    p.start < p.end <= |text| && p.surface == text[p.start..p.end]
  }

  /** Matches come from left to right and do not overlap. */
  ghost predicate LeftToRight(spans: seq<Span>) {
    forall j, k | 0 <= j < k < |spans| :: spans[j].end <= spans[k].start
  }

  ghost predicate WellBehaved(o: Oracle) {
    && (forall i: nat, text: string, s | s in o.findIter(i, text) :: SpanWithin(s, text))
    && (forall i: nat, text: string :: LeftToRight(o.findIter(i, text)))
    && (forall text: string, p | p in o.findPersons(text) :: PersonWithin(p, text))
  }

  type Detectors = o: Oracle | WellBehaved(o) ghost witness Oracle((i, t) => [], t => [])

  /** A span that was found, with its type, its text, and for names the lemma. */
  datatype Detection = Detection(
    start: nat, end: nat, category: string, surface: string, normalized: Option<string>, confidence: real)

  predicate Within(d: Detection, text: string) {
    && d.start < d.end <= |text|
    && d.surface == text[d.start..d.end]
    && d.category in NARROW_TYPES
  }

  predicate Meets(a: Detection, b: Detection) {
    a.start < b.end && a.end > b.start
  }

  predicate Clashes(d: Detection, ds: seq<Detection>) {
    exists i | 0 <= i < |ds| :: Meets(d, ds[i])
  }

  /** A span offered for selection; `accepted` is its validator's or threshold's verdict. */
  datatype Candidate = Candidate(d: Detection, accepted: bool)

  function RegexDetection(text: string, category: string, s: Span): Detection
    requires SpanWithin(s, text)
  {
    Detection(s.start, s.end, category, text[s.start..s.end], None, 1.0)
  }

  function PersonDetection(p: Person): Detection {
    Detection(p.start, p.end, "NAME", p.surface, Some(p.normalized), p.confidence.GetOr(1.0))
  }

  function PatternCandidates(o: Detectors, text: string, checksums: bool, i: nat): (cs: seq<Candidate>)
    requires i < |PATTERNS|
    ensures |cs| == |o.findIter(i, text)|
  {
    var spans := o.findIter(i, text);
    seq(|spans|, j requires 0 <= j < |spans| =>
      assert spans[j] in spans;
      var d := RegexDetection(text, PATTERNS[i].category, spans[j]);
      Candidate(d, !checksums || Accepts(PATTERNS[i].validator, d.surface)))
  }

  /** The candidates of the first `n` patterns. */
  function RegexCandidates(o: Detectors, text: string, checksums: bool, n: nat): seq<Candidate>
    requires n <= |PATTERNS|
  {
    if n == 0 then []
    else RegexCandidates(o, text, checksums, n - 1) + PatternCandidates(o, text, checksums, n - 1)
  }

  function PersonCandidates(o: Detectors, text: string, minConfidence: Option<real>): (cs: seq<Candidate>)
    ensures |cs| == |o.findPersons(text)|
  {
    var ps := o.findPersons(text);
    seq(|ps|, j requires 0 <= j < |ps| =>
      Candidate(PersonDetection(ps[j]), minConfidence.None? || ps[j].confidence.GetOr(1.0) >= minConfidence.value))
  }

  /** Every candidate of the masker, highest priority first. */
  function MaskerCandidates(o: Detectors, text: string): seq<Candidate> {
    RegexCandidates(o, text, true, |PATTERNS|) + PersonCandidates(o, text, None)
  }

  /** Takes candidates in order, skipping the refused ones and those that meet one taken. */
  function Greedy(cs: seq<Candidate>): seq<Detection> {
    if cs == [] then []
    else
      var taken := Greedy(cs[..|cs| - 1]);
      var c := cs[|cs| - 1];
      if c.accepted && !Clashes(c.d, taken) then taken + [c.d] else taken
  }

  lemma GreedySnoc(cs: seq<Candidate>, c: Candidate)
    ensures Greedy(cs + [c]) ==
      if c.accepted && !Clashes(c.d, Greedy(cs)) then Greedy(cs) + [c.d] else Greedy(cs)
  {
    assert (cs + [c])[..|cs|] == cs;
  }

  // ------------------------------------------------------------------------------ sorting

  predicate InOrder(ds: seq<Detection>) {
    && (forall i | 0 <= i < |ds| :: ds[i].start < ds[i].end)
    && (forall i, j | 0 <= i < j < |ds| :: ds[i].end <= ds[j].start)
  }

  function Insert(d: Detection, ds: seq<Detection>): (r: seq<Detection>)
    ensures multiset(r) == multiset(ds) + multiset{d}
  {
    if ds == [] || ds[|ds| - 1].start <= d.start then ds + [d]
    else
      assert ds == ds[..|ds| - 1] + [ds[|ds| - 1]];
      Insert(d, ds[..|ds| - 1]) + [ds[|ds| - 1]]
  }

  /** A stable sort by where the spans begin. */
  function SortByStart(ds: seq<Detection>): (r: seq<Detection>)
    ensures multiset(r) == multiset(ds)
  {
    if ds == [] then []
    else
      assert ds == ds[..|ds| - 1] + [ds[|ds| - 1]];
      Insert(ds[|ds| - 1], SortByStart(ds[..|ds| - 1]))
  }

  lemma SortKeepsMembers(ds: seq<Detection>)
    ensures forall d :: d in SortByStart(ds) <==> d in ds
  {
    assert forall d :: d in SortByStart(ds) <==> d in multiset(SortByStart(ds));
    assert forall d :: d in ds <==> d in multiset(ds);
  }

  lemma InOrderSnoc(ds: seq<Detection>, x: Detection)
    requires InOrder(ds) && x.start < x.end
    requires forall d | d in ds :: d.end <= x.start
    ensures InOrder(ds + [x])
  {
    assert forall i | 0 <= i < |ds| :: ds[i] in ds;
  }

  lemma {:induction false} InsertInOrder(d: Detection, ds: seq<Detection>)
    requires InOrder(ds) && d.start < d.end && forall x | x in ds :: !Meets(d, x)
    ensures InOrder(Insert(d, ds))
    ensures forall x :: x in Insert(d, ds) <==> x == d || x in ds
  {
    if ds == [] {
    } else {
      var front, last := ds[..|ds| - 1], ds[|ds| - 1];
      assert !Meets(d, last) && ds == front + [last];
      if last.start <= d.start {
        forall x | x in ds ensures x.end <= d.start {}
        InOrderSnoc(ds, d);
      } else {
        InsertInOrder(d, front);
        forall x | x in front ensures x.end <= last.start {}
        InOrderSnoc(Insert(d, front), last);
      }
    }
  }

  /** Sorted, spans that keep apart are disjoint and increasing. */
  lemma {:induction false} SortInOrder(ds: seq<Detection>)
    requires forall i | 0 <= i < |ds| :: ds[i].start < ds[i].end && !Clashes(ds[i], ds[..i])
    ensures InOrder(SortByStart(ds))
  {
    if ds != [] {
      var front, last := ds[..|ds| - 1], ds[|ds| - 1];
      forall i | 0 <= i < |front| ensures !Clashes(front[i], front[..i]) {
        assert front[i] == ds[i] && front[..i] == ds[..i];
      }
      SortInOrder(front);
      SortKeepsMembers(front);
      var sorted := SortByStart(front);
      forall x | x in sorted ensures !Meets(last, x) {
        var j :| 0 <= j < |front| && front[j] == x;
        assert !Clashes(last, front);
      }
      InsertInOrder(last, sorted);
    }
  }

  // --------------------------------------------------------------- properties of selection

  ghost predicate AllWithin(cs: seq<Candidate>, text: string) {
    forall i | 0 <= i < |cs| :: Within(cs[i].d, text)
  }

  /** The result of selection: taken from the text, disjoint and increasing. */
  ghost predicate Selection(ds: seq<Detection>, text: string) {
    InOrder(ds) && forall d | d in ds :: Within(d, text)
  }

  lemma {:induction false} RegexCandidatesWithin(o: Detectors, text: string, checksums: bool, n: nat)
    requires n <= |PATTERNS|
    ensures AllWithin(RegexCandidates(o, text, checksums, n), text)
    ensures forall c | c in RegexCandidates(o, text, checksums, n) :: c.d.normalized.None?
  {
    if n > 0 {
      RegexCandidatesWithin(o, text, checksums, n - 1);
      var spans := o.findIter(n - 1, text);
      var mine := PatternCandidates(o, text, checksums, n - 1);
      forall j | 0 <= j < |mine| ensures Within(mine[j].d, text) && mine[j].d.normalized.None? {
        assert spans[j] in spans;
        assert PATTERNS[n - 1].category in NARROW_TYPES;
      }
    }
  }

  lemma PersonCandidatesWithin(o: Detectors, text: string, minConfidence: Option<real>)
    ensures AllWithin(PersonCandidates(o, text, minConfidence), text)
  {
    var ps := o.findPersons(text);
    forall j | 0 <= j < |ps| ensures Within(PersonCandidates(o, text, minConfidence)[j].d, text) {
      assert ps[j] in ps;
    }
  }

  lemma {:induction false} GreedyApart(cs: seq<Candidate>, text: string)
    requires AllWithin(cs, text)
    ensures var g := Greedy(cs);
      && (forall d | d in g :: Within(d, text) && exists c :: c in cs && c.accepted && c.d == d)
      && (forall i | 0 <= i < |g| :: g[i].start < g[i].end && !Clashes(g[i], g[..i]))
  {
    if cs != [] {
      var front, c := cs[..|cs| - 1], cs[|cs| - 1];
      GreedyApart(front, text);
      var taken, g := Greedy(front), Greedy(cs);
      forall i | 0 <= i < |g| ensures g[i].start < g[i].end && !Clashes(g[i], g[..i]) {
        if i < |taken| {
          assert g[..i] == taken[..i];
        } else {
          assert g[..i] == taken;
        }
      }
      assert forall x | x in front :: x in cs;
      assert c in cs;
    }
  }

  lemma GreedySelection(cs: seq<Candidate>, text: string)
    requires AllWithin(cs, text)
    ensures Selection(SortByStart(Greedy(cs)), text)
  {
    GreedyApart(cs, text);
    SortInOrder(Greedy(cs));
    SortKeepsMembers(Greedy(cs));
  }

  /** A chosen candidate of earlier priority meets the one at `i`. */
  ghost predicate Blocked(cs: seq<Candidate>, chosen: seq<bool>, i: nat)
    requires i < |cs| && i <= |chosen|
  {
    exists j | 0 <= j < i :: chosen[j] && Meets(cs[i].d, cs[j].d)
  }

  /** The rule selection stands for: a candidate is chosen exactly when it is accepted and no
      chosen candidate of earlier priority meets it. */
  ghost predicate FollowsRule(cs: seq<Candidate>, chosen: seq<bool>) {
    && |chosen| == |cs|
    && forall i | 0 <= i < |cs| :: chosen[i] == (cs[i].accepted && !Blocked(cs, chosen, i))
  }

  lemma BlockedPrefix(cs: seq<Candidate>, a: seq<bool>, b: seq<bool>, i: nat, n: nat)
    requires i < n <= |cs| && i <= |a| && i <= |b| && forall j | 0 <= j < i :: a[j] == b[j]
    ensures Blocked(cs[..n], a, i) == Blocked(cs, b, i)
  {
    if j :| 0 <= j < i && a[j] && Meets(cs[..n][i].d, cs[..n][j].d) { assert b[j] && Meets(cs[i].d, cs[j].d); }
    if j :| 0 <= j < i && b[j] && Meets(cs[i].d, cs[j].d) { assert a[j] && Meets(cs[..n][i].d, cs[..n][j].d); }
  }

  ghost function Chosen(cs: seq<Candidate>, chosen: seq<bool>): seq<Detection>
    requires |chosen| == |cs|
  {
    if cs == [] then []
    else
      var n := |cs| - 1;
      Chosen(cs[..n], chosen[..n]) + (if chosen[n] then [cs[n].d] else [])
  }

  lemma {:induction false} ChosenMembers(cs: seq<Candidate>, chosen: seq<bool>, d: Detection)
    requires |chosen| == |cs|
    ensures Clashes(d, Chosen(cs, chosen)) <==> exists j | 0 <= j < |cs| :: chosen[j] && Meets(d, cs[j].d)
  {
    if cs != [] {
      var n := |cs| - 1;
      var front := Chosen(cs[..n], chosen[..n]);
      var all := Chosen(cs, chosen);
      ChosenMembers(cs[..n], chosen[..n], d);
      assert forall j | 0 <= j < n :: cs[..n][j] == cs[j] && chosen[..n][j] == chosen[j];
      if Clashes(d, front) {
        var i :| 0 <= i < |front| && Meets(d, front[i]);
        assert all[i] == front[i];
      }
      if chosen[n] { assert all[|front|] == cs[n].d; }
      if i :| 0 <= i < |all| && Meets(d, all[i]) && i < |front| {
        assert front[i] == all[i];
      }
    }
  }

  /** Greedy selection is what the rule selects, whichever choice follows the rule ... */
  lemma {:induction false} RuleIsGreedy(cs: seq<Candidate>, chosen: seq<bool>)
    requires FollowsRule(cs, chosen)
    ensures Chosen(cs, chosen) == Greedy(cs)
  {
    if cs != [] {
      var n := |cs| - 1;
      forall i | 0 <= i < n
        ensures chosen[..n][i] == (cs[..n][i].accepted && !Blocked(cs[..n], chosen[..n], i))
      {
        BlockedPrefix(cs, chosen[..n], chosen, i, n);
      }
      RuleIsGreedy(cs[..n], chosen[..n]);
      ChosenMembers(cs[..n], chosen[..n], cs[n].d);
      BlockedPrefix(cs, chosen[..n], chosen, n, n + 1);
      assert cs[..n + 1] == cs;
      assert forall j | 0 <= j < n :: chosen[..n][j] == chosen[j] && cs[..n][j] == cs[j];
    }
  }

  /** ... and exactly one choice does. */
  lemma RuleUnique(cs: seq<Candidate>, a: seq<bool>, b: seq<bool>)
    requires FollowsRule(cs, a) && FollowsRule(cs, b)
    ensures a == b
  {
    RuleUniqueBelow(cs, a, b, |cs|);
  }

  lemma {:induction false} RuleUniqueBelow(cs: seq<Candidate>, a: seq<bool>, b: seq<bool>, n: nat)
    requires FollowsRule(cs, a) && FollowsRule(cs, b) && n <= |cs|
    ensures forall i | 0 <= i < n :: a[i] == b[i]
  {
    if n > 0 {
      RuleUniqueBelow(cs, a, b, n - 1);
      BlockedPrefix(cs, a, b, n - 1, |cs|);
      assert cs[..|cs|] == cs;
    }
  }

  lemma {:induction false} RuleExists(cs: seq<Candidate>) returns (chosen: seq<bool>)
    ensures FollowsRule(cs, chosen)
  {
    if cs == [] {
      chosen := [];
    } else {
      var n := |cs| - 1;
      var front := RuleExists(cs[..n]);
      var last := cs[n].accepted && !Blocked(cs, front, n);
      chosen := front + [last];
      forall i | 0 <= i < |cs| ensures chosen[i] == (cs[i].accepted && !Blocked(cs, chosen, i)) {
        if i < n {
          BlockedPrefix(cs, front, chosen, i, n);
        } else {
          BlockedPrefix(cs, front, chosen, n, n + 1);
          BlockedPrefix(cs, front, front, n, n + 1);
        }
      }
    }
  }

  /** Selection is maximal: an accepted candidate meets a chosen one, maybe itself. */
  lemma {:induction false} GreedyMaximal(cs: seq<Candidate>, i: nat)
    requires i < |cs| && cs[i].accepted && cs[i].d.start < cs[i].d.end
    ensures Clashes(cs[i].d, Greedy(cs))
  {
    var n := |cs| - 1;
    var taken, g := Greedy(cs[..n]), Greedy(cs);
    if i == n {
      if !Clashes(cs[n].d, taken) { assert g[|taken|] == cs[n].d; }
    } else {
      GreedyMaximal(cs[..n], i);
      var k :| 0 <= k < |taken| && Meets(cs[i].d, taken[k]);
      assert g[k] == taken[k];
    }
  }

  lemma {:induction false} SameSpansWithoutChecks(o: Detectors, text: string, n: nat)
    requires n <= |PATTERNS|
    ensures var strict, lax := RegexCandidates(o, text, true, n), RegexCandidates(o, text, false, n);
      |strict| == |lax| && forall i | 0 <= i < |strict| :: strict[i].d == lax[i].d && lax[i].accepted
  {
    if n > 0 {
      SameSpansWithoutChecks(o, text, n - 1);
    }
  }

  /** Whatever is chosen with checksums meets something chosen without them. */
  lemma CheckedMeetsUnchecked(o: Detectors, text: string, d: Detection)
    requires d in Greedy(RegexCandidates(o, text, true, |PATTERNS|))
    ensures Clashes(d, Greedy(RegexCandidates(o, text, false, |PATTERNS|)))
  {
    var strict := RegexCandidates(o, text, true, |PATTERNS|);
    var lax := RegexCandidates(o, text, false, |PATTERNS|);
    RegexCandidatesWithin(o, text, true, |PATTERNS|);
    SameSpansWithoutChecks(o, text, |PATTERNS|);
    GreedyApart(strict, text);
    var c :| c in strict && c.accepted && c.d == d;
    var i :| 0 <= i < |strict| && strict[i] == c;
    assert lax[i].d == d;
    GreedyMaximal(lax, i);
  }

  // -------------------------------------------------------------------------- the loops

  function SpanOf(d: Detection): Span {
    Span(d.start, d.end)
  }

  /** `_overlaps` */
  predicate Overlaps(s: Span, consumed: seq<Span>) {
    exists i | 0 <= i < |consumed| :: s.start < consumed[i].end && s.end > consumed[i].start
  }

  ghost predicate Consumed(consumed: seq<Span>, ds: seq<Detection>) {
    |consumed| == |ds| && forall i | 0 <= i < |ds| :: consumed[i] == SpanOf(ds[i])
  }

  lemma OverlapsIsClash(d: Detection, consumed: seq<Span>, ds: seq<Detection>)
    requires Consumed(consumed, ds)
    ensures Overlaps(SpanOf(d), consumed) <==> Clashes(d, ds)
  {
    if Clashes(d, ds) {
      var i :| 0 <= i < |ds| && Meets(d, ds[i]);
      assert consumed[i] == SpanOf(ds[i]);
    }
    if Overlaps(SpanOf(d), consumed) {
      var i :| 0 <= i < |consumed| && SpanOf(d).start < consumed[i].end && SpanOf(d).end > consumed[i].start;
      assert Meets(d, ds[i]);
    }
  }

  lemma PatternCandidate(o: Detectors, text: string, checksums: bool, i: nat, j: nat)
    requires i < |PATTERNS| && j < |o.findIter(i, text)|
    ensures var span := o.findIter(i, text)[j];
      && SpanWithin(span, text)
      && var matched := text[span.start..span.end];
         PatternCandidates(o, text, checksums, i)[j] == Candidate(
           Detection(span.start, span.end, PATTERNS[i].category, matched, None, 1.0),
           !checksums || Accepts(PATTERNS[i].validator, matched))
  {
    assert o.findIter(i, text)[j] in o.findIter(i, text);
  }

  /** The regex pass that both maskers run, over `_PATTERNS` with or without validators. */
  method RegexPass(o: Detectors, text: string, skipChecksums: bool)
    returns (detections: seq<Detection>, consumed: seq<Span>)
    ensures detections == Greedy(RegexCandidates(o, text, !skipChecksums, |PATTERNS|))
    ensures Consumed(consumed, detections)
  {
    detections, consumed := [], [];
    PassStart(o, text, !skipChecksums);
    hide *;
    for i := 0 to |PATTERNS|
      invariant PassedSoFar(o, text, !skipChecksums, i, 0, detections, consumed)
    {
      var spans := o.findIter(i, text);
      for j := 0 to |spans|
        invariant PassedSoFar(o, text, !skipChecksums, i, j, detections, consumed)
      {
        var span := spans[j];
        PassStep(o, text, !skipChecksums, i, j, detections, consumed);
        var matched := text[span.start..span.end];
        if Overlaps(span, consumed) {
          continue;
        }
        if !skipChecksums && !Accepts(PATTERNS[i].validator, matched) {
          continue;
        }
        detections := detections + [Detection(span.start, span.end, PATTERNS[i].category, matched, None, 1.0)];
        consumed := consumed + [span];
      }
      PassNext(o, text, !skipChecksums, i, detections, consumed);
    }
    PassEnd(o, text, !skipChecksums, detections, consumed);
  }

  /** After the first `i` patterns and `j` matches of the next. */
  ghost predicate PassedSoFar(o: Detectors, text: string, checksums: bool, i: nat, j: nat,
                              detections: seq<Detection>, consumed: seq<Span>)
  {
    && i <= |PATTERNS| && Consumed(consumed, detections)
    && if i == |PATTERNS| then j == 0 && detections == Greedy(RegexCandidates(o, text, checksums, i))
       else j <= |o.findIter(i, text)|
            && detections == Greedy(
              RegexCandidates(o, text, checksums, i) + PatternCandidates(o, text, checksums, i)[..j])
  }

  lemma PassStart(o: Detectors, text: string, checksums: bool)
    ensures PassedSoFar(o, text, checksums, 0, 0, [], [])
  {
    assert [] + PatternCandidates(o, text, checksums, 0)[..0] == [];
  }

  lemma PassStep(o: Detectors, text: string, checksums: bool, i: nat, j: nat,
                 detections: seq<Detection>, consumed: seq<Span>)
    requires i < |PATTERNS| && j < |o.findIter(i, text)| && PassedSoFar(o, text, checksums, i, j, detections, consumed)
    ensures o.findIter(i, text)[j].start <= o.findIter(i, text)[j].end <= |text|
    ensures var span := o.findIter(i, text)[j];
      var matched := text[span.start..span.end];
      var d := Detection(span.start, span.end, PATTERNS[i].category, matched, None, 1.0);
      if Overlaps(span, consumed) || (checksums && !Accepts(PATTERNS[i].validator, matched))
      then PassedSoFar(o, text, checksums, i, j + 1, detections, consumed)
      else PassedSoFar(o, text, checksums, i, j + 1, detections + [d], consumed + [span])
  {
    hide Greedy, Clashes, Overlaps, Accepts, PatternCandidates, RegexCandidates;
    PatternCandidate(o, text, checksums, i, j);
    var before, mine := RegexCandidates(o, text, checksums, i), PatternCandidates(o, text, checksums, i);
    CandidateStep(before, mine, j, consumed, detections);
  }

  lemma PassNext(o: Detectors, text: string, checksums: bool, i: nat, detections: seq<Detection>, consumed: seq<Span>)
    requires i < |PATTERNS| && PassedSoFar(o, text, checksums, i, |o.findIter(i, text)|, detections, consumed)
    ensures PassedSoFar(o, text, checksums, i + 1, 0, detections, consumed)
  {
    hide Greedy, PatternCandidates;
    var all := RegexCandidates(o, text, checksums, i + 1);
    var mine := PatternCandidates(o, text, checksums, i);
    assert mine[..|o.findIter(i, text)|] == mine;
    if i + 1 < |PATTERNS| {
      assert all + PatternCandidates(o, text, checksums, i + 1)[..0] == all;
    }
  }

  lemma PassEnd(o: Detectors, text: string, checksums: bool, detections: seq<Detection>, consumed: seq<Span>)
    requires PassedSoFar(o, text, checksums, |PATTERNS|, 0, detections, consumed)
    ensures detections == Greedy(RegexCandidates(o, text, checksums, |PATTERNS|)) && Consumed(consumed, detections)
  {}

  /** What one more candidate does to the selection, in the terms of the loops. */
  lemma CandidateStep(before: seq<Candidate>, mine: seq<Candidate>, j: nat,
                      consumed: seq<Span>, detections: seq<Detection>)
    requires j < |mine| && detections == Greedy(before + mine[..j]) && Consumed(consumed, detections)
    ensures Greedy(before + mine[..j + 1]) ==
      if mine[j].accepted && !Overlaps(SpanOf(mine[j].d), consumed) then detections + [mine[j].d] else detections
  {
    assert before + mine[..j + 1] == (before + mine[..j]) + [mine[j]];
    GreedySnoc(before + mine[..j], mine[j]);
    OverlapsIsClash(mine[j].d, consumed, detections);
  }

  /** `_collect_detections` */
  method CollectDetections(o: Detectors, text: string) returns (detections: seq<Detection>)
    ensures detections == SortByStart(Greedy(MaskerCandidates(o, text)))
    ensures Selection(detections, text)
  {
    hide Greedy, Clashes, Overlaps, RegexCandidates;
    var consumed;
    detections, consumed := RegexPass(o, text, false);
    var persons := o.findPersons(text);
    ghost var before := RegexCandidates(o, text, true, |PATTERNS|);
    ghost var mine := PersonCandidates(o, text, None);
    assert before + mine[..0] == before;
    for j := 0 to |persons|
      invariant detections == Greedy(before + mine[..j])
      invariant Consumed(consumed, detections)
    {
      var d := PersonDetection(persons[j]);
      var span := Span(persons[j].start, persons[j].end);
      CandidateStep(before, mine, j, consumed, detections);
      if Overlaps(span, consumed) {
        continue;
      }
      detections := detections + [d];
      consumed := consumed + [span];
    }
    assert mine[..|persons|] == mine;
    MaskerSelection(o, text);
    detections := SortByStart(detections);
  }

  lemma MaskerSelection(o: Detectors, text: string)
    ensures AllWithin(MaskerCandidates(o, text), text)
    ensures Selection(SortByStart(Greedy(MaskerCandidates(o, text))), text)
  {
    RegexCandidatesWithin(o, text, true, |PATTERNS|);
    PersonCandidatesWithin(o, text, None);
    GreedySelection(MaskerCandidates(o, text), text);
  }
}
