/** What dropping the checksums in emergency mode does to the selection (`_mask_with_policy` of
    `pipeline.py`): a span that its checksum would have refused can crowd out an accepted one,
    and leave a part of it unmasked. */
module EmergencyMode {
  import opened Text
  import opened Placeholders
  import opened Neutralise
  import opened Checksums
  import opened ChecksumErrors
  import opened Detection
  import opened Mappings
  import opened Splicing
  import opened Policy
  import opened DegradedMode
  import opened PolicyMasking
  import opened PolicyRoundTrip

  // -------------------------------------------------------------- what keeps its place

  /** The same spans in the same order, and all of them accepted. */
  ghost predicate Unchecked(cs: seq<Candidate>, all: seq<Candidate>) {
    && |cs| == |all|
    && forall i | 0 <= i < |cs| :: all[i].d == cs[i].d && all[i].accepted
  }

  /** A span taken without its check meets no span that was chosen with checks. */
  ghost predicate NoneCrowdedOut(cs: seq<Candidate>, strict: seq<bool>, lax: seq<bool>)
    requires |strict| == |lax| == |cs|
  {
    forall j, i | 0 <= j < i < |cs| && lax[j] && !cs[j].accepted && strict[i] :: !Meets(cs[i].d, cs[j].d)
  }

  ghost predicate KeptUpTo(strict: seq<bool>, lax: seq<bool>, n: nat)
    requires n <= |strict| && n <= |lax|
  {
    forall i | 0 <= i < n && strict[i] :: lax[i]
  }

  /** Every span chosen with checks is chosen without them exactly when none of them meets a
      span of earlier priority that is chosen although its check refuses it. */
  lemma SelectionKeptIff(cs: seq<Candidate>, all: seq<Candidate>, strict: seq<bool>, lax: seq<bool>)
    requires Unchecked(cs, all) && FollowsRule(cs, strict) && FollowsRule(all, lax)
    ensures KeptUpTo(strict, lax, |cs|) <==> NoneCrowdedOut(cs, strict, lax)
  {
    if KeptUpTo(strict, lax, |cs|) {
      forall j, i | 0 <= j < i < |cs| && lax[j] && !cs[j].accepted && strict[i] ensures !Meets(cs[i].d, cs[j].d) {
        assert lax[i] && !Blocked(all, lax, i);
      }
    }
    if NoneCrowdedOut(cs, strict, lax) {
      KeptBelow(cs, all, strict, lax, |cs|);
    }
  }

  lemma {:induction false} KeptBelow(cs: seq<Candidate>, all: seq<Candidate>, strict: seq<bool>, lax: seq<bool>, n: nat)
    requires Unchecked(cs, all) && FollowsRule(cs, strict) && FollowsRule(all, lax)
    requires NoneCrowdedOut(cs, strict, lax) && n <= |cs|
    ensures KeptUpTo(strict, lax, n)
  {
    if n > 0 {
      var i := n - 1;
      KeptBelow(cs, all, strict, lax, i);
      if strict[i] { NotBlocked(cs, all, strict, lax, i); }
    }
  }

  /** What would block a span was accepted, so it was blocked itself by a span that is kept. */
  lemma NotBlocked(cs: seq<Candidate>, all: seq<Candidate>, strict: seq<bool>, lax: seq<bool>, i: nat)
    requires Unchecked(cs, all) && FollowsRule(cs, strict) && FollowsRule(all, lax)
    requires NoneCrowdedOut(cs, strict, lax) && i < |cs| && strict[i] && KeptUpTo(strict, lax, i)
    ensures !Blocked(all, lax, i)
  {
    forall j | 0 <= j < i && lax[j] ensures !Meets(all[i].d, all[j].d) {
      if cs[j].accepted {
        if strict[j] {
          assert !Blocked(cs, strict, i);
        } else {
          BlockedStays(cs, all, strict, lax, j);
        }
      }
    }
  }

  lemma BlockedStays(cs: seq<Candidate>, all: seq<Candidate>, strict: seq<bool>, lax: seq<bool>, j: nat)
    requires Unchecked(cs, all) && j < |cs| && |strict| == |lax| == |cs|
    requires Blocked(cs, strict, j) && KeptUpTo(strict, lax, j)
    ensures Blocked(all, lax, j)
  {
    var k :| 0 <= k < j && strict[k] && Meets(cs[j].d, cs[k].d);
    assert lax[k] && Meets(all[j].d, all[k].d);
  }

  /** So it is, before the policy filter, for degraded and emergency mode. */
  lemma EmergencyKeepsIff(o: Detectors, text: string, profile: PolicyProfile, strict: seq<bool>, lax: seq<bool>)
    requires FollowsRule(PolicyCandidates(o, text, profile, Degraded), strict)
    requires FollowsRule(PolicyCandidates(o, text, profile, Emergency), lax)
    ensures var cs := PolicyCandidates(o, text, profile, Degraded);
      && |strict| == |lax| == |cs| && Chosen(cs, strict) == Greedy(cs)
      && (KeptUpTo(strict, lax, |cs|) <==> NoneCrowdedOut(cs, strict, lax))
  {
    var cs, all := PolicyCandidates(o, text, profile, Degraded), PolicyCandidates(o, text, profile, Emergency);
    RuleIsGreedy(cs, strict);
    SameSpansWithoutChecks(o, text, |PATTERNS|);
    assert cs == RegexCandidates(o, text, true, |PATTERNS|) && all == RegexCandidates(o, text, false, |PATTERNS|);
    hide *;
    UncheckedFrom(cs, all);
    SelectionKeptIff(cs, all, strict, lax);
  }

  lemma UncheckedFrom(cs: seq<Candidate>, all: seq<Candidate>)
    requires |cs| == |all| && forall i | 0 <= i < |cs| :: cs[i].d == all[i].d && all[i].accepted
    ensures Unchecked(cs, all)
  {}

  // ------------------------------------------------------------------- a part left unmasked

  const TEXT := "1112-2222-3333-8999 123-45-67"
  const CARD := Span(0, 19)
  const PHONE := Span(15, 29)

  /** What the expressions find in the text: sixteen digits in groups of four, and, from the
      last group on, eleven digits that begin with 8. */
  ghost function CardAndPhone(): Detectors {
    Oracle((i, t) => if t == TEXT && i == 1 then [CARD] else if t == TEXT && i == 5 then [PHONE] else [], t => [])
  }

  predicate Ascii(s: string) {
    forall i | 0 <= i < |s| :: '0' <= s[i] <= '9'
  }

  lemma {:induction false} StripDigits(s: string)
    requires Ascii(s)
    ensures Strip(s) == s
  {
    if s != "" {
      StripDigits(s[1..]);
    }
  }

  /** A group of digits and the separator after it. */
  lemma StripGroup(a: string, x: char, b: string)
    requires Ascii(a) && (x == '-' || x == ' ')
    ensures Strip(a + [x] + b) == a + Strip(b)
  {
    StripAppend(a + [x], b);
    StripAppend(a, [x]);
    assert !IsDigit(x);
    StripNothing([x]);
    StripDigits(a);
    hide Strip;
    assert a + "" == a;
  }

  lemma CardParts()
    ensures "1112-2222-3333-8999" == "1112" + "-" + ("2222" + "-" + ("3333" + "-" + "8999"))
    ensures "1112222233338999" == "1112" + ("2222" + ("3333" + "8999"))
  {}

  lemma CardDigits()
    ensures Strip("1112-2222-3333-8999") == "1112222233338999"
  {
    CardParts();
    hide Strip;
    StripGroup("1112", '-', "2222" + "-" + ("3333" + "-" + "8999"));
    StripGroup("2222", '-', "3333" + "-" + "8999");
    StripGroup("3333", '-', "8999");
    StripDigits("8999");
  }

  lemma PhoneParts()
    ensures "8999 123-45-67" == "8999" + " " + ("123" + "-" + ("45" + "-" + "67"))
    ensures "89991234567" == "8999" + ("123" + ("45" + "67"))
  {}

  lemma PhoneDigits()
    ensures Strip("8999 123-45-67") == "89991234567"
  {
    PhoneParts();
    hide Strip;
    StripGroup("8999", ' ', "123" + "-" + ("45" + "-" + "67"));
    StripGroup("123", '-', "45" + "-" + "67");
    StripGroup("45", '-', "67");
    StripDigits("67");
  }

  lemma LuhnPair(x: Digit, y: Digit, rest: seq<Digit>)
    requires |rest| % 2 == 0
    ensures LuhnSum([x, y] + rest) == Doubled(x) + y + LuhnSum(rest)
  {
    var d, e := [x, y] + rest, [y] + rest;
    assert d[1..] == e && e[1..] == rest && |d| % 2 == 0 && |e| % 2 == 1;
    assert LuhnSum(d) == Doubled(x) + LuhnSum(e);
    assert LuhnSum(e) == y + LuhnSum(rest);
  }

  lemma CardValues()
    ensures Digits("1112-2222-3333-8999") == [1, 1, 1, 2, 2, 2, 2, 2, 3, 3, 3, 3, 8, 9, 9, 9]
  {
    CardDigits();
    hide Strip;
    var s := "1112222233338999";
    assert forall i | 0 <= i < |s| :: Values(s)[i] == (s[i] - '0') as int;
  }

  /** Two pairs at a time: two identical groups of digits, or the last group. */
  lemma LuhnGroup(u: Digit, v: Digit, x: Digit, y: Digit, rest: seq<Digit>)
    requires |rest| % 2 == 0
    ensures LuhnSum([u, v, x, y] + rest) == Doubled(u) + v + (Doubled(x) + y) + LuhnSum(rest)
  {
    assert [u, v, x, y] + rest == [u, v] + ([x, y] + rest);
    LuhnPair(x, y, rest);
    LuhnPair(u, v, [x, y] + rest);
  }

  lemma CardSum(third: seq<Digit>, second: seq<Digit>, first: seq<Digit>, last: seq<Digit>)
    requires last == [8, 9, 9, 9] + [] && third == [3, 3, 3, 3] + last
    requires second == [2, 2, 2, 2] + third && first == [1, 1, 1, 2] + second
    ensures LuhnSum(first) == 71
  {
    assert LuhnSum([]) == 0 && |last| == 4 && |third| == 8 && |second| == 12;
    hide LuhnSum;
    LuhnGroup(8, 9, 9, 9, []);
    LuhnGroup(3, 3, 3, 3, last);
    LuhnGroup(2, 2, 2, 2, third);
    LuhnGroup(1, 1, 1, 2, second);
  }

  lemma CardJoined()
    ensures [1, 1, 1, 2] + ([2, 2, 2, 2] + ([3, 3, 3, 3] + ([8, 9, 9, 9] + [])))
      == [1, 1, 1, 2, 2, 2, 2, 2, 3, 3, 3, 3, 8, 9, 9, 9]
  {}

  lemma BadSum(s: string)
    requires LuhnSum(Digits(s)) == 71
    ensures !IsCardNumber(s)
  {}

  /** The sum is 71: not a card number. */
  lemma NotACard()
    ensures !IsCardNumber("1112-2222-3333-8999")
  {
    hide *;
    CardValues();
    CardJoined();
    var last: seq<Digit> := [8, 9, 9, 9] + [];
    var third := [3, 3, 3, 3] + last;
    CardSum(third, [2, 2, 2, 2] + third, [1, 1, 1, 2] + ([2, 2, 2, 2] + third), last);
    BadSum("1112-2222-3333-8999");
  }

  ghost function CardFound(): Detection {
    Detection(0, 19, "CARD", "1112-2222-3333-8999", None, 1.0)
  }

  ghost function PhoneFound(): Detection {
    Detection(15, 29, "PHONE", "8999 123-45-67", None, 1.0)
  }

  /** The phone number is accepted by its check, the card number is not. */
  lemma {:induction false} TwoCandidates(checksums: bool, n: nat)
    requires n <= |PATTERNS|
    ensures RegexCandidates(CardAndPhone(), TEXT, checksums, n) ==
      (if n > 1 then [Candidate(CardFound(), !checksums)] else [])
      + (if n > 5 then [Candidate(PhoneFound(), true)] else [])
  {
    if n > 0 {
      TwoCandidates(checksums, n - 1);
      OnePattern(checksums, n - 1);
    }
  }

  lemma OnePattern(checksums: bool, i: nat)
    requires i < |PATTERNS|
    ensures PatternCandidates(CardAndPhone(), TEXT, checksums, i) ==
      if i == 1 then [Candidate(CardFound(), !checksums)] else if i == 5 then [Candidate(PhoneFound(), true)] else []
  {
    TextParts();
    Verdicts();
    hide IsCardNumber, Phone;
    var o, cs := CardAndPhone(), PatternCandidates(CardAndPhone(), TEXT, checksums, i);
    assert |cs| == |o.findIter(i, TEXT)|;
    if i == 1 || i == 5 { PatternCandidate(o, TEXT, checksums, i, 0); }
  }

  lemma TextParts()
    ensures |TEXT| == 29 && TEXT[0..19] == "1112-2222-3333-8999" && TEXT[15..29] == "8999 123-45-67"
  {}

  lemma Verdicts()
    ensures !IsCardNumber("1112-2222-3333-8999") && Phone("8999 123-45-67")
  {
    NotACard();
    PhoneDigits();
    hide Strip, IsCardNumber;
  }

  lemma OneAllowed(d: Detection, allowed: set<string>)
    requires IsAllowed(d.category, allowed)
    ensures Allowed(SortByStart([d]), allowed) == [d]
  {
    assert [d][..0] == [] && SortByStart([]) == [];
    assert SortByStart([d]) == [d];
    hide SortByStart;
    assert Allowed([], allowed) == [];
  }

  lemma GreedyOne(c: Candidate)
    ensures Greedy([c]) == if c.accepted then [c.d] else []
  {
    assert [c][..0] == [] && Greedy([]) == [] && !Clashes(c.d, []);
  }

  lemma GreedyTwo(a: Candidate, b: Candidate)
    requires b.accepted && Meets(b.d, a.d)
    ensures Greedy([a, b]) == if a.accepted then [a.d] else [b.d]
  {
    assert [a, b] == [a] + [b];
    assert Meets(b.d, [a.d][0]) && Clashes(b.d, [a.d]) && !Clashes(b.d, []);
    hide Clashes, Greedy;
    GreedyOne(a);
    GreedySnoc([a], b);
  }

  lemma CandidatesIn(profile: PolicyProfile, mode: Mode)
    requires mode != Full
    ensures PolicyCandidates(CardAndPhone(), TEXT, profile, mode)
      == [Candidate(CardFound(), mode == Emergency), Candidate(PhoneFound(), true)]
  {
    TwoCandidates(mode != Emergency, |PATTERNS|);
    hide RegexCandidates;
    assert |PATTERNS| == 10;
  }

  /** With its check the card number is refused, and the phone number chosen; without it the
      card number is chosen and crowds out the phone number. */
  lemma Selected(profile: PolicyProfile, mode: Mode)
    requires Profile("strict") == Some(profile) || Profile("balanced") == Some(profile)
    requires mode != Full
    ensures PolicyDetections(CardAndPhone(), TEXT, profile, mode)
      == [if mode == Emergency then CardFound() else PhoneFound()]
  {
    CandidatesIn(profile, mode);
    StrictAndBalancedAllowAll(profile, "CARD");
    StrictAndBalancedAllowAll(profile, "PHONE");
    hide PolicyCandidates, IsAllowed, Profile, Greedy, SortByStart, Allowed;
    var card, phone := Candidate(CardFound(), mode == Emergency), Candidate(PhoneFound(), true);
    assert Meets(phone.d, card.d) && card.d.category == "CARD" && phone.d.category == "PHONE";
    hide CardFound, PhoneFound;
    GreedyTwo(card, phone);
    OneAllowed(if mode == Emergency then card.d else phone.d, profile.maskCategories);
  }

  lemma SpliceOne(text: string, d: Detection, p: string)
    requires Placed(text, [d])
    ensures d.start <= d.end <= |text| && Splice(text, [d], [p]) == text[..d.start] + p + text[d.end..]
  {
    assert [p][..0] == [] && [d][..0] == [];
    SpliceParts(text, [d], [p]);
    SpliceToLast(text, [d], [p]);
    assert SpliceTo(text, [], []) == "";
    hide SpliceTo;
    assert "" + text[0..d.start] == text[..d.start];
  }

  lemma IssueOne(d: Detection)
    ensures IssueAll(EMPTY, [d]).1 == [Placeholder(d.category, 1)]
  {
    hide Placeholder;
    assert [d][..0] == [] && IssueAll(EMPTY, []) == (EMPTY, []);
  }

  lemma MaskedOne(o: Detectors, text: string, profile: PolicyProfile, mode: Mode, d: Detection)
    requires text != "" && NeutraliseUserPlaceholders(text) == text
    requires PolicyDetections(o, text, profile, mode) == [d]
    ensures d.start <= d.end <= |text|
    ensures PolicyMasked(o, text, profile, mode).0 == text[..d.start] + Placeholder(d.category, 1) + text[d.end..]
  {
    hide *;
    PolicyMaskedParts(o, text, profile, mode);
    IssueOne(d);
    SpliceOne(text, d, Placeholder(d.category, 1));
  }

  /** In emergency mode a part of a phone number stays in the text that degraded mode masks. */
  lemma EmergencyCanUncover(profile: PolicyProfile)
    requires Profile("strict") == Some(profile) || Profile("balanced") == Some(profile)
    ensures PolicyMasked(CardAndPhone(), TEXT, profile, Degraded).0 == "1112-2222-3333-<PHONE_1>"
    ensures PolicyMasked(CardAndPhone(), TEXT, profile, Emergency).0 == "<CARD_1> 123-45-67"
  {
    assert '<' !in TEXT && NeutraliseUserPlaceholders(TEXT) == TEXT;
    Selected(profile, Degraded);
    Selected(profile, Emergency);
    hide *;
    MaskedOne(CardAndPhone(), TEXT, profile, Degraded, PhoneFound());
    MaskedOne(CardAndPhone(), TEXT, profile, Emergency, CardFound());
    MaskedTexts();
  }

  lemma MaskedTexts()
    ensures PhoneFound().start == 15 && PhoneFound().end == 29 && PhoneFound().category == "PHONE"
    ensures CardFound().start == 0 && CardFound().end == 19 && CardFound().category == "CARD"
    ensures TEXT[..15] + Placeholder("PHONE", 1) + TEXT[29..] == "1112-2222-3333-<PHONE_1>"
    ensures TEXT[..0] + Placeholder("CARD", 1) + TEXT[19..] == "<CARD_1> 123-45-67"
  {
    assert TEXT[..15] == "1112-2222-3333-" && TEXT[19..] == " 123-45-67";
    assert Placeholder("PHONE", 1) == "<PHONE_1>" && Placeholder("CARD", 1) == "<CARD_1>";
  }
}
