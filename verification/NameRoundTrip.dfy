/** The one way a round trip loses text: names that share a normalised form share a
    placeholder, which restores the form that came first. */
module NameRoundTrip {
  import opened Text
  import opened Placeholders
  import opened Neutralise
  import opened Detection
  import opened Mappings
  import opened Splicing
  import opened Policy
  import opened DegradedMode
  import opened PolicyMasking
  import opened PolicyRoundTrip
  import opened Runs

  // ------------------------------------------------------------- when a text comes back

  /** Fills of the same lengths can be read off the spliced text. */
  lemma {:induction false} SpliceToInjective(text: string, ds: seq<Detection>, a: seq<string>, b: seq<string>)
    requires Placed(text, ds) && |a| == |b| == |ds| && SameLengths(a, b)
    ensures |SpliceTo(text, ds, a)| == |SpliceTo(text, ds, b)|
    ensures SpliceTo(text, ds, a) == SpliceTo(text, ds, b) ==> a == b
  {
    hide Placed;
    if ds != [] {
      var n := |ds| - 1;
      SpliceToLast(text, ds, a);
      SpliceToLast(text, ds, b);
      SpliceToInjective(text, ds[..n], a[..n], b[..n]);
      var gap := text[EndOf(ds[..n])..ds[n].start];
      hide SpliceTo;
      SameParts(SpliceTo(text, ds[..n], a[..n]), gap, a[n], SpliceTo(text, ds[..n], b[..n]), b[n]);
      assert a == a[..n] + [a[n]] && b == b[..n] + [b[n]];
    }
  }

  ghost predicate SameLengths(a: seq<string>, b: seq<string>) {
    |a| == |b| && forall i | 0 <= i < |a| :: |a[i]| == |b[i]|
  }

  lemma SameParts(x: string, gap: string, a: string, y: string, b: string)
    requires |x| == |y| && |a| == |b|
    ensures |x + gap + a| == |y + gap + b|
    ensures x + gap + a == y + gap + b ==> x == y && a == b
  {
    var s, t := x + gap + a, y + gap + b;
    assert s[..|x|] == x && s[|x| + |gap|..] == a;
    assert t[..|y|] == y && t[|y| + |gap|..] == b;
  }

  /** What stays is as long as before, whatever the fills. */
  lemma {:induction false} SpliceToLength(text: string, ds: seq<Detection>, a: seq<string>, b: seq<string>)
    requires Placed(text, ds) && |a| == |b| == |ds|
    ensures |SpliceTo(text, ds, a)| + |Concat(b)| == |SpliceTo(text, ds, b)| + |Concat(a)|
  {
    hide Placed, Concat;
    if ds != [] {
      var n := |ds| - 1;
      SpliceToLast(text, ds, a);
      SpliceToLast(text, ds, b);
      SpliceToLength(text, ds[..n], a[..n], b[..n]);
      ConcatSnoc(a[..n], a[n]);
      ConcatSnoc(b[..n], b[n]);
      assert a == a[..n] + [a[n]] && b == b[..n] + [b[n]];
    }
  }

  /** The surfaces that come back are as long as the ones they replace, each of them or not even
      all together. */
  ghost predicate LengthsTell(ds: seq<Detection>) {
    |Concat(FirstSurfaces(ds))| == |Concat(Surfaces(ds))| ==> SameLengths(FirstSurfaces(ds), Surfaces(ds))
  }

  /** So it is when none of them is longer, or none shorter. */
  lemma OneWayLengthsTell(ds: seq<Detection>)
    requires var f := FirstSurfaces(ds);
      && |f| == |ds|
      && ((forall i | 0 <= i < |ds| :: |f[i]| <= |ds[i].surface|)
          || (forall i | 0 <= i < |ds| :: |f[i]| >= |ds[i].surface|))
    ensures LengthsTell(ds)
  {
    var f, s := FirstSurfaces(ds), Surfaces(ds);
    assert |f| == |s| == |ds| && forall i | 0 <= i < |ds| :: s[i] == ds[i].surface;
    hide FirstSurfaces, Surfaces;
    if forall i | 0 <= i < |ds| :: |f[i]| <= |ds[i].surface| {
      NoLonger(f, s);
    } else {
      NoLonger(s, f);
    }
  }

  lemma {:induction false} NoLonger(a: seq<string>, b: seq<string>)
    requires |a| == |b| && forall i | 0 <= i < |a| :: |a[i]| <= |b[i]|
    ensures |Concat(a)| <= |Concat(b)|
    ensures |Concat(a)| == |Concat(b)| ==> SameLengths(a, b)
  {
    if a != [] {
      NoLonger(a[1..], b[1..]);
      if |Concat(a)| == |Concat(b)| {
        forall i | 0 <= i < |a| ensures |a[i]| == |b[i]| {
          assert i > 0 ==> |a[1..][i - 1]| == |b[1..][i - 1]|;
        }
      }
    }
  }

  /** A text survives splicing exactly when every span gets its own surface back. */
  lemma SpliceIsTextIff(text: string, ds: seq<Detection>, fills: seq<string>)
    requires Placed(text, ds) && (forall i | 0 <= i < |ds| :: Within(ds[i], text)) && |fills| == |ds|
    requires |Concat(fills)| == |Concat(Surfaces(ds))| ==> SameLengths(fills, Surfaces(ds))
    ensures Splice(text, ds, fills) == text <==> fills == Surfaces(ds)
  {
    SpliceSurfaces(text, ds);
    PlacedPrefix(text, ds, |ds|);
    assert ds[..|ds|] == ds;
    SpliceParts(text, ds, fills);
    SpliceParts(text, ds, Surfaces(ds));
    SpliceToLength(text, ds, fills, Surfaces(ds));
    if SameLengths(fills, Surfaces(ds)) { SpliceToInjective(text, ds, fills, Surfaces(ds)); }
    var x, y := SpliceTo(text, ds, fills), SpliceTo(text, ds, Surfaces(ds));
    hide *;
    if |x| == |y| {
      SameParts(x, "", text[EndOf(ds)..], y, text[EndOf(ds)..]);
      assert x + "" == x && y + "" == y;
    }
  }

  lemma {:induction false} FirstSurfaceFound(ds: seq<Detection>, i: nat)
    requires i < |ds|
    ensures FirstSurface(ds, CacheKey(ds[i])).Some?
  {
    hide CacheKey;
    if i < |ds| - 1 { FirstSurfaceFound(ds[..|ds| - 1], i); }
  }

  lemma OneSurfaceIff(ds: seq<Detection>)
    ensures FirstSurfaces(ds) == Surfaces(ds) <==> OneSurfacePerKey(ds)
  {
    hide FirstSurface, CacheKey;
    forall i | 0 <= i < |ds|
      ensures FirstSurfaces(ds)[i] == Surfaces(ds)[i] <==> FirstSurface(ds, CacheKey(ds[i])) == Some(ds[i].surface)
    {
      FirstSurfaceFound(ds, i);
    }
  }

  /** The text comes back neutralised and otherwise unchanged exactly when every span's surface
      is the first one of its key. Without the premise on lengths one direction still holds
      (`SameSurfacesRestoreAll`); for the other see `LengthsCanCancel`. */
  lemma RestoresAllIff(o: Detectors, text: string, profile: PolicyProfile, mode: Mode)
    requires LengthsTell(PolicyDetectionsIn(o, text, profile, mode))
    ensures PolicyRestored(o, text, profile, mode) == NeutraliseUserPlaceholders(text)
       <==> OneSurfacePerKey(PolicyDetectionsIn(o, text, profile, mode))
  {
    if text != "" {
      var t := NeutraliseUserPlaceholders(text);
      var ds := PolicyDetections(o, t, profile, mode);
      PolicyMaskedParts(o, text, profile, mode);
      assert PolicyRestored(o, text, profile, mode) == Splice(t, ds, FirstSurfaces(ds));
      assert |FirstSurfaces(ds)| == |ds|;
      hide NeutraliseUserPlaceholders, PolicyDetections, PolicyRestored, FirstSurfaces, OneSurfacePerKey;
      hide Splice, Placed;
      SpliceIsTextIff(t, ds, FirstSurfaces(ds));
      OneSurfaceIff(ds);
    }
  }

  /** So for what the service restores, in any mode and after any harmless steps. */
  lemma RunRestoresAllIff(world: World, w: Workspace, s: Step, later: seq<Step>)
    requires s.Anonymize? && Profile(s.profile).Some?
    requires LengthsTell(PolicyDetectionsIn(world.detectors, s.text, Profile(s.profile).value, s.mode))
    requires forall x | x in later ::
      Harmless(world, s.ws, w.key, Originals(InfoOfStep(world, s)), s.session, x)
    ensures var profile := Profile(s.profile).value;
      BatchRestore(Run(world, s.ws, StepOn(world, s.ws, w, s), later),
                   PolicyMasked(world.detectors, s.text, profile, s.mode).0) == NeutraliseUserPlaceholders(s.text)
      <==> OneSurfacePerKey(PolicyDetectionsIn(world.detectors, s.text, profile, s.mode))
  {
    hide *;
    RestoreAfterAnonymize(world, w, s, later);
    RestoresAllIff(world.detectors, s.text, Profile(s.profile).value, s.mode);
  }

  // --------------------------------------------------------------- texts with names alone

  ghost predicate PeopleIn(text: string, people: seq<Person>) {
    && (forall p | p in people :: PersonWithin(p, text))
    && (forall i, j | 0 <= i < j < |people| :: people[i].end <= people[j].start)
  }

  /** A recogniser that finds these people in this text, and nothing else anywhere. */
  ghost function NamesOnly(text: string, people: seq<Person>): Detectors
    requires PeopleIn(text, people)
  {
    Oracle((i, t) => [], t => if t == text then people else [])
  }

  ghost function Names(people: seq<Person>): seq<Detection> {
    seq(|people|, i requires 0 <= i < |people| => PersonDetection(people[i]))
  }

  lemma InOrderPrefix(ds: seq<Detection>)
    requires ds != [] && InOrder(ds)
    ensures var n := |ds| - 1;
      InOrder(ds[..n]) && !Clashes(ds[n], ds[..n]) && (n > 0 ==> ds[n - 1].start <= ds[n].start)
  {}

  /** Accepted candidates in order and apart are all selected ... */
  lemma {:induction false} AllSelected(cs: seq<Candidate>, ds: seq<Detection>)
    requires |cs| == |ds| && (forall i | 0 <= i < |cs| :: cs[i] == Candidate(ds[i], true)) && InOrder(ds)
    ensures Greedy(cs) == ds
  {
    if ds != [] {
      var n := |ds| - 1;
      InOrderPrefix(ds);
      hide InOrder, Clashes;
      AllSelected(cs[..n], ds[..n]);
      assert cs == cs[..n] + [cs[n]] && ds == ds[..n] + [ds[n]];
      hide Greedy;
      GreedySnoc(cs[..n], cs[n]);
    }
  }

  lemma InsertLast(d: Detection, ds: seq<Detection>)
    requires ds == [] || ds[|ds| - 1].start <= d.start
    ensures Insert(d, ds) == ds + [d]
  {}

  lemma SortedSnoc(ds: seq<Detection>, d: Detection)
    requires SortByStart(ds) == ds && (ds == [] || ds[|ds| - 1].start <= d.start)
    ensures SortByStart(ds + [d]) == ds + [d]
  {
    assert (ds + [d])[..|ds|] == ds;
    InsertLast(d, ds);
  }

  /** ... and are sorted already. */
  lemma {:induction false} SortedAlready(ds: seq<Detection>)
    requires InOrder(ds)
    ensures SortByStart(ds) == ds
  {
    if ds != [] {
      var n := |ds| - 1;
      InOrderPrefix(ds);
      hide *;
      SortedAlready(ds[..n]);
      SortedSnoc(ds[..n], ds[n]);
      assert ds[..n] + [ds[n]] == ds;
    }
  }

  lemma {:induction false} NoRegexCandidates(text: string, people: seq<Person>, checksums: bool, n: nat)
    requires n <= |PATTERNS| && PeopleIn(text, people)
    ensures RegexCandidates(NamesOnly(text, people), text, checksums, n) == []
  {
    if n > 0 {
      NoRegexCandidates(text, people, checksums, n - 1);
    }
  }

  lemma NamesAccepted(text: string, people: seq<Person>, profile: PolicyProfile)
    requires PeopleIn(text, people) && profile.natashaMinConfidence <= 1.0
    requires forall p | p in people :: p.confidence.None?
    ensures var cs := PolicyCandidates(NamesOnly(text, people), text, profile, Full);
      |cs| == |people| && forall i | 0 <= i < |cs| :: cs[i] == Candidate(Names(people)[i], true)
  {
    var o, ds := NamesOnly(text, people), Names(people);
    NoRegexCandidates(text, people, true, |PATTERNS|);
    hide RegexCandidates, PersonWithin;
    var cs := PersonCandidates(o, text, Some(profile.natashaMinConfidence));
    assert PolicyCandidates(o, text, profile, Full) == [] + cs == cs;
    hide PolicyCandidates;
    forall i | 0 <= i < |people| ensures cs[i] == Candidate(ds[i], true) {
      assert people[i] in people;
    }
  }

  lemma NamesInOrder(text: string, people: seq<Person>)
    requires PeopleIn(text, people)
    ensures InOrder(Names(people))
  {
    var ds := Names(people);
    forall i | 0 <= i < |ds|
      ensures ds[i].start < ds[i].end && ds[i].end == people[i].end && ds[i].start == people[i].start
    {
      assert people[i] in people && PersonWithin(people[i], text);
    }
    hide Names;
  }

  lemma NamesDetected(text: string, people: seq<Person>, profile: PolicyProfile)
    requires PeopleIn(text, people) && Profile("balanced") == Some(profile)
    requires forall p | p in people :: p.confidence.None?
    ensures PolicyDetections(NamesOnly(text, people), text, profile, Full) == Names(people)
  {
    NamesAccepted(text, people, profile);
    NamesInOrder(text, people);
    StrictAndBalancedAllowAll(profile, "NAME");
    assert forall d | d in Names(people) :: d.category == "NAME";
    var ds, cs := Names(people), PolicyCandidates(NamesOnly(text, people), text, profile, Full);
    assert |cs| == |ds|;
    hide PolicyCandidates, Names, IsAllowed, InOrder, Profile, PeopleIn;
    AllSelected(cs, ds);
    SortedAlready(ds);
    AllAllowed(ds, profile.maskCategories);
  }

  /** Masking and restoring such a text. */
  lemma NamesMasked(text: string, people: seq<Person>, profile: PolicyProfile)
    requires PeopleIn(text, people) && Profile("balanced") == Some(profile)
    requires text != "" && NeutraliseUserPlaceholders(text) == text
    requires forall p | p in people :: p.confidence.None?
    ensures var o, ds := NamesOnly(text, people), Names(people);
      && Placed(text, ds) && |FirstSurfaces(ds)| == |ds|
      && PolicyMasked(o, text, profile, Full).0 == Splice(text, ds, IssueAll(EMPTY, ds).1)
      && PolicyRestored(o, text, profile, Full) == Splice(text, ds, FirstSurfaces(ds))
  {
    NamesDetected(text, people, profile);
    hide PolicyDetections, Names, NamesOnly, PeopleIn, Splice, IssueAll, Placed;
    PolicyMaskedParts(NamesOnly(text, people), text, profile, Full);
  }

  lemma SpliceToTwo(t: string, a: Detection, b: Detection, x: string, y: string)
    requires Placed(t, [a, b])
    ensures a.start <= a.end <= b.start <= b.end <= |t|
    ensures SpliceTo(t, [a, b], [x, y]) == t[..a.start] + x + t[a.end..b.start] + y
  {
    var ds, fills := [a, b], [x, y];
    assert ds[..1] == [a] && fills[..1] == [x] && [a][..0] == [] && [x][..0] == [];
    PlacedPrefix(t, ds, 1);
    assert Placed(t, [a]) && Placed(t, []);
    SpliceToLast(t, ds, fills);
    SpliceToLast(t, [a], [x]);
    assert SpliceTo(t, [], []) == "" && EndOf([a]) == a.end;
    hide SpliceTo;
    assert "" + t[0..a.start] == t[..a.start];
  }

  /** Text, name, text, name, text. */
  lemma SpliceTwo(t: string, a: Detection, b: Detection, x: string, y: string)
    requires Placed(t, [a, b])
    ensures a.start <= a.end <= b.start <= b.end <= |t|
    ensures Splice(t, [a, b], [x, y]) == t[..a.start] + x + t[a.end..b.start] + y + t[b.end..]
  {
    SpliceToTwo(t, a, b, x, y);
    hide SpliceTo;
  }

  // ------------------------------------------------------------------- a text that is changed

  const TEXT := "Иванов сказал Иванову"
  const IVANOV := Person(0, 6, "Иванов", "Иванов", None)
  const IVANOVU := Person(14, 21, "Иванову", "Иванов", None)

  lemma TwoForms()
    ensures PeopleIn(TEXT, [IVANOV, IVANOVU])
    ensures TEXT[6..14] == " сказал " && TEXT[21..] == ""
  {
    assert TEXT == "Иванов" + " сказал " + "Иванову";
    assert TEXT[0..6] == "Иванов" && TEXT[14..21] == "Иванову";
    forall p | p in [IVANOV, IVANOVU] ensures PersonWithin(p, TEXT) {
      assert p == IVANOV || p == IVANOVU;
    }
  }

  lemma NothingToNeutralise()
    ensures NeutraliseUserPlaceholders(TEXT) == TEXT
  {
    assert '<' !in TEXT;
  }

  /** Two forms of one name get one placeholder, which restores the first form. */
  lemma TwoFormsIssued(a: Detection, b: Detection)
    requires CacheKey(a) == CacheKey(b) && a.category == b.category == "NAME"
    ensures IssueAll(EMPTY, [a, b]).1 == ["<NAME_1>", "<NAME_1>"]
    ensures FirstSurfaces([a, b]) == [a.surface, a.surface]
  {
    hide CacheKey;
    assert [a, b][..1] == [a] && [a][..0] == [];
    assert Placeholder("NAME", 1) == "<NAME_1>";
    assert IssueAll(EMPTY, [a]).1 == ["<NAME_1>"] && CacheKey(b) in IssueAll(EMPTY, [a]).0.forward;
    assert FirstSurface([a], CacheKey(a)) == Some(a.surface);
    assert FirstSurface([a, b], CacheKey(a)) == Some(a.surface);
  }

  /** In full mode the text may not come back, even when it holds no placeholder. The masker's
      own example, under the balanced profile: from any table, the dative becomes the
      nominative. All white space is single blanks between words, so normalising white space
      does not hide the difference. */
  lemma FullModeRoundTripCanFail(hash: string -> string, w: Workspace, ws: string, session: string)
    ensures PeopleIn(TEXT, [IVANOV, IVANOVU])
    ensures var world := World(NamesOnly(TEXT, [IVANOV, IVANOVU]), hash);
      var masked := "<NAME_1> сказал <NAME_1>";
      && PolicyMasked(world.detectors, TEXT, Profile("balanced").value, Full).0 == masked
      && BatchRestore(StepOn(world, ws, w, Anonymize(ws, TEXT, "balanced", session, Full)), masked)
         == "Иванов сказал Иванов" != TEXT
  {
    TwoForms();
    NothingToNeutralise();
    var profile, people := Profile("balanced").value, [IVANOV, IVANOVU];
    var world := World(NamesOnly(TEXT, people), hash);
    var o, s := world.detectors, Anonymize(ws, TEXT, "balanced", session, Full);
    var a, b := PersonDetection(IVANOV), PersonDetection(IVANOVU);
    NamesMasked(TEXT, people, profile);
    assert Names(people) == [a, b];
    TwoFormsIssued(a, b);
    hide *;
    SpliceTwo(TEXT, a, b, "<NAME_1>", "<NAME_1>");
    SpliceTwo(TEXT, a, b, "Иванов", "Иванов");
    RestoreAfterAnonymize(world, w, s, []);
    RunNothing(world, ws, StepOn(world, ws, w, s));
    TextsWritten();
  }

  lemma RunNothing(world: World, ws: string, w: Workspace)
    ensures Run(world, ws, w, []) == w
  {}

  lemma TextsWritten()
    ensures "" + "<NAME_1>" + " сказал " + "<NAME_1>" + "" == "<NAME_1> сказал <NAME_1>"
    ensures "" + "Иванов" + " сказал " + "Иванов" + "" == "Иванов сказал Иванов" != TEXT
  {}

  // --------------------------------------------------------------- lengths that make up

  const CANCELLING := "А, Б В; А Б В"
  const FOUR: seq<Person> := [
    Person(0, 1, "А", "m", None), Person(3, 6, "Б В", "n", None),
    Person(8, 11, "А Б", "m", None), Person(12, 13, "В", "n", None)
  ]

  /** Why lengths matter: with `А` and later `А Б` for one name, and `Б В` and later `В` for
      another, the text comes back although no name that comes again shows its first surface. */
  lemma LengthsCanCancel(profile: PolicyProfile)
    requires Profile("balanced") == Some(profile)
    ensures PeopleIn(CANCELLING, FOUR)
    ensures var o := NamesOnly(CANCELLING, FOUR);
      && PolicyRestored(o, CANCELLING, profile, Full) == NeutraliseUserPlaceholders(CANCELLING)
      && !OneSurfacePerKey(PolicyDetectionsIn(o, CANCELLING, profile, Full))
  {
    FourPeople();
    var ds := Names(FOUR);
    NamesMasked(CANCELLING, FOUR, profile);
    NamesDetected(CANCELLING, FOUR, profile);
    assert PolicyDetectionsIn(NamesOnly(CANCELLING, FOUR), CANCELLING, profile, Full) == ds;
    assert ds == [ds[0], ds[1], ds[2], ds[3]];
    assert CacheKey(ds[0]) == CacheKey(ds[2]) == "m" && CacheKey(ds[1]) == CacheKey(ds[3]) == "n";
    LengthsCancel(ds[0], ds[1], ds[2], ds[3], CANCELLING);
  }

  lemma FourPeople()
    ensures PeopleIn(CANCELLING, FOUR)
    ensures NeutraliseUserPlaceholders(CANCELLING) == CANCELLING
  {
    assert '<' !in CANCELLING;
    assert CANCELLING[0..1] == "А" && CANCELLING[3..6] == "Б В";
    assert CANCELLING[8..11] == "А Б" && CANCELLING[12..13] == "В";
    forall p | p in FOUR ensures PersonWithin(p, CANCELLING) {
      assert p == FOUR[0] || p == FOUR[1] || p == FOUR[2] || p == FOUR[3];
    }
  }

  lemma LengthsCancel(a: Detection, b: Detection, c: Detection, d: Detection, text: string)
    requires text == "А, Б В; А Б В"
    requires a.surface == "А" && b.surface == "Б В" && c.surface == "А Б" && d.surface == "В"
    requires a.start == 0 && b.start == 3 && c.start == 8 && d.start == 12
    requires forall x | x in [a, b, c, d] :: x.end == x.start + |x.surface|
    requires CacheKey(a) == CacheKey(c) != CacheKey(b) == CacheKey(d)
    ensures var ds := [a, b, c, d];
      && Placed(text, ds)
      && Splice(text, ds, FirstSurfaces(ds)) == text
      && !OneSurfacePerKey(ds) && !LengthsTell(ds)
  {
    var ds, first := [a, b, c, d], ["А", "Б В", "А", "Б В"];
    FirstOfTwoKeys(a, b, c, d);
    assert Surfaces(ds) == ["А", "Б В", "А Б", "В"];
    OneSurfaceIff(ds);
    ConcatFour("А", "Б В", "А", "Б В");
    ConcatFour("А", "Б В", "А Б", "В");
    assert !SameLengths(first, Surfaces(ds)) by { assert |first[3]| != |Surfaces(ds)[3]|; }
    hide FirstSurface, FirstSurfaces, Surfaces, CacheKey, Concat, OneSurfacePerKey;
    assert Placed(text, ds);
    SpliceFour(text, a, b, c, d, first);
    hide *;
    TextPieces(text);
  }

  lemma ConcatFour(a: string, b: string, c: string, d: string)
    ensures |Concat([a, b, c, d])| == |a| + |b| + |c| + |d|
  {
    assert [a, b, c, d] == [] + [a] + [b] + [c] + [d];
    assert Concat([]) == "";
    hide Concat;
    ConcatSnoc([], a);
    ConcatSnoc([] + [a], b);
    ConcatSnoc([] + [a] + [b], c);
    ConcatSnoc([] + [a] + [b] + [c], d);
  }

  lemma TextPieces(text: string)
    requires text == "А, Б В; А Б В"
    ensures text[..0] + "А" + text[1..3] + "Б В" + text[6..8] + "А" + text[11..12] + "Б В" + text[13..] == text
  {
    assert text[1..3] == ", " && text[6..8] == "; " && text[11..12] == " ";
  }

  lemma SpliceFour(t: string, a: Detection, b: Detection, c: Detection, d: Detection, fills: seq<string>)
    requires Placed(t, [a, b, c, d]) && |fills| == 4
    ensures 0 <= a.start <= a.end <= b.start <= b.end <= c.start <= c.end <= d.start <= d.end <= |t|
    ensures Splice(t, [a, b, c, d], fills) == t[..a.start] + fills[0] + t[a.end..b.start] + fills[1]
      + t[b.end..c.start] + fills[2] + t[c.end..d.start] + fills[3] + t[d.end..]
  {
    var ds := [a, b, c, d];
    PlacedPrefix(t, ds, 2);
    PlacedPrefix(t, ds, 3);
    assert ds[..2] == [a, b] && ds[..3] == [a, b] + [c] && ds == ds[..3] + [d];
    assert fills == [fills[0], fills[1]] + [fills[2]] + [fills[3]];
    SpliceToTwo(t, a, b, fills[0], fills[1]);
    hide SpliceTo, Placed;
    SpliceToSnoc(t, [a, b], [fills[0], fills[1]], c, fills[2]);
    SpliceToSnoc(t, [a, b] + [c], [fills[0], fills[1]] + [fills[2]], d, fills[3]);
  }

  lemma FirstSurfaceSnoc(ds: seq<Detection>, x: Detection, key: string)
    ensures FirstSurface(ds + [x], key) ==
      if FirstSurface(ds, key).Some? then FirstSurface(ds, key)
      else if CacheKey(x) == key then Some(x.surface) else None
  {
    assert (ds + [x])[..|ds|] == ds;
  }

  lemma FirstOfTwoKeys(a: Detection, b: Detection, c: Detection, d: Detection)
    requires CacheKey(a) == CacheKey(c) != CacheKey(b) == CacheKey(d)
    ensures FirstSurfaces([a, b, c, d]) == [a.surface, b.surface, a.surface, b.surface]
  {
    forall key ensures FirstSurface([a, b, c, d], key) ==
      if key == CacheKey(a) then Some(a.surface) else if key == CacheKey(b) then Some(b.surface) else None
    {
      hide CacheKey;
      assert [a, b, c, d] == [] + [a] + [b] + [c] + [d];
      assert FirstSurface([], key) == None;
      hide FirstSurface;
      FirstSurfaceSnoc([], a, key);
      FirstSurfaceSnoc([] + [a], b, key);
      FirstSurfaceSnoc([] + [a] + [b], c, key);
      FirstSurfaceSnoc([] + [a] + [b] + [c], d, key);
    }
    hide FirstSurface, CacheKey;
  }
}
