/** The placeholder language `<TYPE_N>` and its two regular expressions, scanning text for
    matches, and substituting them. The narrow expression is the masker's, the wide one the
    pipeline's. */
module Placeholders {
  import opened Text

  datatype Kind = Narrow | Wide

  const NARROW_TYPES: set<string> := {
    "NAME", "EMAIL", "PHONE", "PASSPORT", "INN", "SNILS", "CARD", "OGRN", "OGRNIP", "BANK_ACCOUNT"
  }

  predicate IsTypeChar(c: char) {
    'A' <= c <= 'Z' || c == '_'
  }

  /** One of ten names for the narrow expression, capitals and underscores for the wide one. */
  predicate IsType(k: Kind, name: string) {
    match k
    case Narrow => name in NARROW_TYPES
    case Wide => name != "" && forall i | 0 <= i < |name| :: IsTypeChar(name[i])
  }

  /** `s` is `<`, a type, `_`, digits and `>`, with that underscore at position `u`. */
  predicate CutAt(k: Kind, s: string, u: nat) {
    && 2 <= u <= |s| - 3
    && s[0] == '<' && s[u] == '_' && s[|s| - 1] == '>'
    && IsType(k, s[1..u])
    && AllDigits(s[u + 1..|s| - 1])
  }

  /** The language of the regular expression: the strings it matches in full. */
  predicate IsPlaceholder(k: Kind, s: string) {
    exists u | 0 <= u < |s| :: CutAt(k, s, u)
  }

  lemma NarrowTypeIsWide(name: string)
    requires name in NARROW_TYPES
    ensures IsType(Wide, name) && |name| <= 12
  {}

  lemma NarrowIsWide(s: string)
    requires IsPlaceholder(Narrow, s)
    ensures IsPlaceholder(Wide, s)
  {
    var u :| 0 <= u < |s| && CutAt(Narrow, s, u);
    NarrowTypeIsWide(s[1..u]);
    assert CutAt(Wide, s, u);
  }

  lemma CutChars(k: Kind, s: string, u: nat)
    requires CutAt(k, s, u)
    ensures forall i | 1 <= i < u :: IsTypeChar(s[i])
    ensures forall i | u < i < |s| - 1 :: IsDigit(s[i])
  {
    if k == Narrow { NarrowTypeIsWide(s[1..u]); }
    forall i | 1 <= i < u ensures IsTypeChar(s[i]) { assert s[i] == s[1..u][i - 1]; }
    forall i | u < i < |s| - 1 ensures IsDigit(s[i]) { assert s[i] == s[u + 1..|s| - 1][i - u - 1]; }
  }

  /** The fact every scan rests on: `<` opens and `>` closes a placeholder, and neither
      occurs anywhere else in it; nor does the fullwidth `＜`. */
  lemma PlaceholderShape(k: Kind, s: string)
    requires IsPlaceholder(k, s)
    ensures |s| >= 5 && s[0] == '<' && s[|s| - 1] == '>'
    ensures forall i | 1 <= i < |s| - 1 :: s[i] != '<' && s[i] != '>' && s[i] != '＜'
  {
    var u :| 0 <= u < |s| && CutAt(k, s, u);
    CutChars(k, s, u);
  }

  // --------------------------------------------------------------- building placeholders

  /** The placeholder with this type and number. */
  function Placeholder(name: string, n: nat): (s: string)
    ensures |s| == |name| + |Decimal(n)| + 3
  {
    "<" + name + "_" + Decimal(n) + ">"
  }

  lemma PlaceholderCut(k: Kind, name: string, n: nat)
    requires IsType(k, name)
    ensures CutAt(k, Placeholder(name, n), |name| + 1)
    ensures IsPlaceholder(k, Placeholder(name, n))
  {
    var s := Placeholder(name, n);
    assert s[1..|name| + 1] == name;
    assert s[|name| + 2..|s| - 1] == Decimal(n);
    assert CutAt(k, s, |name| + 1);
  }

  /** Injective for every pair of types, those with an underscore included. */
  lemma PlaceholderInjective(a: string, m: nat, b: string, n: nat)
    requires IsType(Wide, a) && IsType(Wide, b)
    requires Placeholder(a, m) == Placeholder(b, n)
    ensures a == b && m == n
  {
    var s := Placeholder(a, m);
    PlaceholderCut(Wide, a, m);
    PlaceholderCut(Wide, b, n);
    CutChars(Wide, s, |a| + 1);
    CutChars(Wide, s, |b| + 1);
    assert s[1..|a| + 1] == a && s[1..|b| + 1] == b;
    assert s[|a| + 2..|s| - 1] == Decimal(m) && s[|b| + 2..|s| - 1] == Decimal(n);
    DecimalInjective(m, n);
  }

  /** Fewer than 10^18 numbers per type keep every narrow placeholder within 33 characters. */
  lemma ShortPlaceholder(name: string, n: nat)
    requires name in NARROW_TYPES && n < 1_000_000_000_000_000_000
    ensures |Placeholder(name, n)| <= 33
  {
    NarrowTypeIsWide(name);
    assert Pow10(6) == 1_000_000;
    assert Pow10(12) == 1_000_000_000_000;
    assert Pow10(18) == 1_000_000_000_000_000_000;
    DecimalLength(n, 18);
  }

  // ----------------------------------------------------------------------------- scanning

  /** Length of the match that begins at the start of `s`, or 0. */
  function MatchLength(k: Kind, s: string): (n: nat)
    ensures n <= |s|
    ensures n > 0 ==> IsPlaceholder(k, s[..n])
  {
    if s == "" || s[0] != '<' then 0
    else
      var g := IndexOf(s, '>');
      if g < |s| && IsPlaceholder(k, s[..g + 1]) then g + 1 else 0
  }

  /** Every match is found, and at most one begins at any position: the expressions are
      unambiguous, so backtracking order does not matter. */
  lemma MatchFound(k: Kind, s: string, e: nat)
    requires 0 < e <= |s| && IsPlaceholder(k, s[..e])
    ensures MatchLength(k, s) == e
  {
    PlaceholderShape(k, s[..e]);
    var g := IndexOf(s, '>');
    assert s[e - 1] == '>' && forall i | 0 <= i < e - 1 :: s[i] != '>';
    assert g == e - 1;
  }

  /** Leftmost non-overlapping matches, in order. */
  function Matches(k: Kind, s: string): (ps: seq<string>)
    ensures forall p | p in ps :: IsPlaceholder(k, p)
  {
    if s == "" then []
    else
      var n := MatchLength(k, s);
      if n > 0 then [s[..n]] + Matches(k, s[n..]) else Matches(k, s[1..])
  }

  function Entry(m: map<string, string>, p: string): string {
    if p in m then m[p] else p
  }

  /** Every match replaced by its entry in the table, if it has one. */
  function Substitute(k: Kind, m: map<string, string>, s: string): string {
    if s == "" then ""
    else
      var n := MatchLength(k, s);
      if n > 0 then Entry(m, s[..n]) + Substitute(k, m, s[n..])
      else [s[0]] + Substitute(k, m, s[1..])
  }

  /** One step of the scan, for proofs that hide the definition. */
  lemma SubstituteStep(k: Kind, m: map<string, string>, s: string)
    requires s != ""
    ensures var n := MatchLength(k, s);
      Substitute(k, m, s) == if n > 0 then Entry(m, s[..n]) + Substitute(k, m, s[n..])
                             else [s[0]] + Substitute(k, m, s[1..])
  {}

  lemma MatchesStep(k: Kind, s: string)
    requires s != ""
    ensures var n := MatchLength(k, s);
      Matches(k, s) == if n > 0 then [s[..n]] + Matches(k, s[n..]) else Matches(k, s[1..])
  {}

  lemma Associative(a: string, b: string, c: string)
    ensures (a + b) + c == a + (b + c)
  {}

  lemma EmptyScan(k: Kind, m: map<string, string>)
    ensures Substitute(k, m, "") == "" && Matches(k, "") == []
  {}

  // -------------------------------------------------------------------- scanning and cuts

  ghost predicate At(s: string, i: int, p: string) {
    0 <= i <= |s| - |p| && s[i..i + |p|] == p
  }

  lemma AtChars(s: string, i: int, p: string)
    requires At(s, i, p)
    ensures forall j | 0 <= j < |p| :: s[i + j] == p[j]
  {
    forall j | 0 <= j < |p| ensures s[i + j] == p[j] { assert s[i..i + |p|][j] == s[i + j]; }
  }

  lemma SliceOfSlice(s: string, a: nat, b: nat, i: nat, j: nat)
    requires a <= b <= |s| && i <= j <= b - a
    ensures s[a..b][i..j] == s[a + i..a + j]
  {
    forall c | 0 <= c < j - i ensures s[a..b][i..j][c] == s[a + i..a + j][c] {}
  }

  /** `p` occurs in `s`. */
  ghost predicate Occurs(p: string, s: string) {
    exists i :: At(s, i, p)
  }

  /** `p` lies across the cut of `a + b`: it begins in `a` and ends in `b`. */
  ghost predicate Straddles(p: string, a: string, b: string) {
    exists i :: At(a + b, i, p) && i < |a| < i + |p|
  }

  /** No placeholder occurs anywhere in `s`, overlapping or not. */
  ghost predicate MatchFree(k: Kind, s: string) {
    forall p | IsPlaceholder(k, p) :: !Occurs(p, s)
  }

  lemma OccursInPart(p: string, s: string, a: nat, b: nat)
    requires a <= b <= |s| && Occurs(p, s[a..b])
    ensures Occurs(p, s)
  {
    var i :| At(s[a..b], i, p);
    SliceOfSlice(s, a, b, i, i + |p|);
    assert At(s, a + i, p);
  }

  lemma MatchFreePart(k: Kind, s: string, a: nat, b: nat)
    requires MatchFree(k, s) && a <= b <= |s|
    ensures MatchFree(k, s[a..b])
  {
    forall p | IsPlaceholder(k, p) ensures !Occurs(p, s[a..b]) {
      if Occurs(p, s[a..b]) { OccursInPart(p, s, a, b); }
    }
  }

  lemma StraddlesTail(p: string, a: string, b: string, n: nat)
    requires n <= |a| && Straddles(p, a[n..], b)
    ensures Straddles(p, a, b)
  {
    var i :| At(a[n..] + b, i, p) && i < |a[n..]| < i + |p|;
    assert a[n..] + b == (a + b)[n..];
    SliceOfSlice(a + b, n, |a + b|, i, i + |p|);
    assert (a + b)[n..|a + b|] == (a + b)[n..];
    assert At(a + b, n + i, p);
  }

  lemma StraddlesLonger(p: string, a: string, b: string, c: string)
    requires Straddles(p, a, b)
    ensures Straddles(p, a, b + c)
  {
    var i :| At(a + b, i, p) && i < |a| < i + |p|;
    SliceOfSlice(a + (b + c), 0, |a + b|, i, i + |p|);
    assert (a + (b + c))[0..|a + b|] == a + b;
    assert At(a + (b + c), i, p);
  }

  /** Text without `<` in front of more text contributes only itself. */
  lemma {:induction false} PlainRun(k: Kind, u: string, v: string, m: map<string, string>)
    requires '<' !in u
    ensures Matches(k, u + v) == Matches(k, v)
    ensures Substitute(k, m, u + v) == u + Substitute(k, m, v)
  {
    var w := u + v;
    if u == "" {
      assert w == v;
      Associative("", "", Substitute(k, m, v));
    } else {
      assert w[1..] == u[1..] + v && w[0] == u[0];
      assert MatchLength(k, w) == 0;
      SubstituteStep(k, m, w);
      MatchesStep(k, w);
      hide Substitute, Matches, MatchLength;
      PlainRun(k, u[1..], v, m);
      Associative([u[0]], u[1..], Substitute(k, m, v));
      assert u == [u[0]] + u[1..];
    }
  }

  /** Text without `>` holds no match. */
  lemma NoCloseNoMatch(k: Kind, s: string)
    requires '>' !in s
    ensures MatchFree(k, s)
  {
    forall p, i | IsPlaceholder(k, p) ensures !At(s, i, p) {
      PlaceholderShape(k, p);
      if At(s, i, p) { AtChars(s, i, p); }
    }
  }

  lemma {:induction false} MatchFreeScan(k: Kind, s: string, m: map<string, string>)
    requires MatchFree(k, s)
    ensures Matches(k, s) == []
    ensures Substitute(k, m, s) == s
  {
    if s != "" {
      var n := MatchLength(k, s);
      assert At(s, 0, s[..n]) && Occurs(s[..n], s);
      MatchFreePart(k, s, 1, |s|);
      assert s[1..|s|] == s[1..];
      MatchFreeScan(k, s[1..], m);
    }
  }

  /** Substitution distributes over a cut that no replaced placeholder straddles. */
  lemma {:induction false} SubstituteAppend(k: Kind, m: map<string, string>, a: string, b: string)
    requires forall p | IsPlaceholder(k, p) && Entry(m, p) != p :: !Straddles(p, a, b)
    ensures Substitute(k, m, a + b) == Substitute(k, m, a) + Substitute(k, m, b)
  {
    hide MatchLength, IsPlaceholder, Straddles, Substitute, Matches, Entry;
    if a == "" {
      assert a + b == b;
      EmptyScan(k, m);
    } else if MatchLength(k, a + b) > |a| {
      SubstituteAcross(k, m, a, b);
    } else {
      var n := MatchStep(k, a, b);
      forall p | IsPlaceholder(k, p) && Entry(m, p) != p ensures !Straddles(p, a[n..], b) {
        if Straddles(p, a[n..], b) { StraddlesTail(p, a, b, n); }
      }
      SubstituteAppend(k, m, a[n..], b);
      SubstituteStep(k, m, a);
      SubstituteStep(k, m, a + b);
      var first := if MatchLength(k, a) > 0 then Entry(m, a[..n]) else [a[0]];
      Associative(first, Substitute(k, m, a[n..]), Substitute(k, m, b));
    }
  }

  /** A scan of `a + b` and a scan of `a` step alike while they stay inside `a`. */
  lemma MatchStep(k: Kind, a: string, b: string) returns (n: nat)
    requires a != "" && MatchLength(k, a + b) <= |a|
    ensures MatchLength(k, a) == MatchLength(k, a + b)
    ensures n == if MatchLength(k, a) == 0 then 1 else MatchLength(k, a)
    ensures n <= |a| && (a + b)[..n] == a[..n] && (a + b)[n..] == a[n..] + b
  {
    var w, x := MatchLength(k, a + b), MatchLength(k, a);
    if w > 0 {
      assert (a + b)[..w] == a[..w];
      MatchFound(k, a, w);
    } else if x > 0 {
      assert (a + b)[..x] == a[..x];
      MatchFound(k, a + b, x);
    }
    n := if x == 0 then 1 else x;
  }

  /** A match that begins with `a` and ends inside `b`. */
  lemma AcrossShape(k: Kind, a: string, b: string) returns (p: string, r: nat)
    requires a != "" && MatchLength(k, a + b) > |a|
    ensures 0 < r <= |b| && |p| == |a| + r && MatchLength(k, a + b) == |p|
    ensures p == (a + b)[..|p|] == a + b[..r] && (a + b)[|p|..] == b[r..]
    ensures IsPlaceholder(k, p) && Straddles(p, a, b)
    ensures '>' !in a && '<' !in b[..r]
  {
    var n := MatchLength(k, a + b);
    p, r := (a + b)[..n], n - |a|;
    assert At(a + b, 0, p);
    PlaceholderShape(k, p);
    assert p == a + b[..r];
    assert forall i | 0 <= i < |a| :: a[i] == p[i];
    assert forall i | 0 <= i < r :: b[..r][i] == p[|a| + i];
  }

  lemma SubstituteAcross(k: Kind, m: map<string, string>, a: string, b: string)
    requires a != "" && MatchLength(k, a + b) > |a|
    requires forall p | IsPlaceholder(k, p) && Entry(m, p) != p :: !Straddles(p, a, b)
    ensures Substitute(k, m, a + b) == Substitute(k, m, a) + Substitute(k, m, b)
  {
    hide MatchLength, IsPlaceholder, Substitute, Matches, Straddles, MatchFree;
    var p, r := AcrossShape(k, a, b);
    SubstituteStep(k, m, a + b);
    NoCloseNoMatch(k, a);
    MatchFreeScan(k, a, m);
    var x := Substitute(k, m, b[r..]);
    assert Substitute(k, m, a + b) == p + x;
    assert b == b[..r] + b[r..];
    PlainRun(k, b[..r], b[r..], m);
    Associative(a, b[..r], x);
  }

  /** A placeholder never straddles a cut after `>` or before `<`. */
  lemma NoStraddle(k: Kind, a: string, b: string)
    requires a == "" || a[|a| - 1] == '>' || b == "" || b[0] == '<'
    ensures forall p | IsPlaceholder(k, p) :: !Straddles(p, a, b)
  {
    forall p | IsPlaceholder(k, p) ensures !Straddles(p, a, b) {
      if i :| At(a + b, i, p) && i < |a| < i + |p| {
        AtChars(a + b, i, p);
        assert p[|a| - i] == b[0] && p[|a| - i - 1] == a[|a| - 1];
        PlaceholderShape(k, p);
      }
    }
  }

  lemma {:induction false} MatchesAppend(k: Kind, a: string, b: string)
    requires forall p | IsPlaceholder(k, p) :: !Straddles(p, a, b)
    ensures Matches(k, a + b) == Matches(k, a) + Matches(k, b)
  {
    if a == "" {
      assert a + b == b;
    } else {
      var w := MatchLength(k, a + b);
      assert At(a + b, 0, (a + b)[..w]);
      assert w <= |a|;
      var n := MatchStep(k, a, b);
      forall p | IsPlaceholder(k, p) ensures !Straddles(p, a[n..], b) {
        if Straddles(p, a[n..], b) { StraddlesTail(p, a, b, n); }
      }
      MatchesAppend(k, a[n..], b);
    }
  }

  lemma ScanOne(k: Kind, p: string, m: map<string, string>)
    requires IsPlaceholder(k, p)
    ensures Matches(k, p) == [p]
    ensures Substitute(k, m, p) == Entry(m, p)
  {
    assert p[..|p|] == p && p[|p|..] == "";
    MatchFound(k, p, |p|);
  }

  // ------------------------------------------------------- the scan finds every occurrence

  /** Independent of the scan: the matches are exactly the placeholders that occur. */
  lemma {:induction false} MatchesAreOccurrences(k: Kind, s: string, p: string)
    ensures p in Matches(k, s) <==> IsPlaceholder(k, p) && Occurs(p, s)
  {
    if s == "" {
      if IsPlaceholder(k, p) { PlaceholderShape(k, p); }
    } else {
      var n := MatchLength(k, s);
      var c := if n == 0 then 1 else n;
      MatchesAreOccurrences(k, s[c..], p);
      assert p in Matches(k, s) <==> (n > 0 && p == s[..n]) || p in Matches(k, s[c..]);
      if n > 0 && p == s[..n] { assert At(s, 0, p); }
      assert s[c..|s|] == s[c..];
      if Occurs(p, s[c..]) { OccursInPart(p, s, c, |s|); }
      if IsPlaceholder(k, p) && Occurs(p, s) { OccurrenceFound(k, s, p, c); }
    }
  }

  /** An occurrence is matched first, or lies beyond the first step of the scan. */
  lemma OccurrenceFound(k: Kind, s: string, p: string, c: nat)
    requires s != "" && IsPlaceholder(k, p) && Occurs(p, s)
    requires c == if MatchLength(k, s) == 0 then 1 else MatchLength(k, s)
    ensures (MatchLength(k, s) == c && p == s[..c]) || Occurs(p, s[c..])
  {
    var i :| At(s, i, p);
    hide MatchLength, IsPlaceholder;
    PlaceholderShape(k, p);
    AtChars(s, i, p);
    if i == 0 {
      MatchFound(k, s, |p|);
    } else if i < c {
      assert s[..c][i] == '<';
      PlaceholderShape(k, s[..c]);
    } else {
      assert s[c..][i - c..i - c + |p|] == s[i..i + |p|];
      assert At(s[c..], i - c, p);
    }
  }

  lemma MatchFreeIffNoMatches(k: Kind, s: string)
    ensures MatchFree(k, s) <==> Matches(k, s) == []
  {
    if MatchFree(k, s) {
      MatchFreeScan(k, s, map[]);
    } else {
      var p :| IsPlaceholder(k, p) && Occurs(p, s);
      MatchesAreOccurrences(k, s, p);
    }
  }

  /** For tables keyed by narrow placeholders the two expressions substitute alike. */
  lemma {:induction false} WideIsNarrow(m: map<string, string>, s: string)
    requires forall p | p in m :: IsPlaceholder(Narrow, p)
    ensures Substitute(Wide, m, s) == Substitute(Narrow, m, s)
  {
    if s != "" {
      var w, n := MatchLength(Wide, s), MatchLength(Narrow, s);
      if n > 0 {
        NarrowIsWide(s[..n]);
        MatchFound(Wide, s, n);
        WideIsNarrow(m, s[n..]);
      } else if w > 0 {
        WideOnly(m, s, w);
        WideIsNarrow(m, s[w..]);
      } else {
        WideIsNarrow(m, s[1..]);
      }
    }
  }

  /** A wide match that is not narrow has no entry, and the narrow scan walks through it. */
  lemma WideOnly(m: map<string, string>, s: string, w: nat)
    requires forall p | p in m :: IsPlaceholder(Narrow, p)
    requires 0 < w == MatchLength(Wide, s) && MatchLength(Narrow, s) == 0
    ensures s[..w] !in m
    ensures Substitute(Narrow, m, s) == s[..w] + Substitute(Narrow, m, s[w..])
  {
    hide MatchLength, IsPlaceholder, Substitute, Matches;
    if IsPlaceholder(Narrow, s[..w]) { MatchFound(Narrow, s, w); }
    var u, v := s[1..w], s[w..];
    NoOpenAfterFirst(Wide, s, w);
    assert u + v == s[1..] && [s[0]] + u == s[..w];
    SubstituteStep(Narrow, m, s);
    PlainRun(Narrow, u, v, m);
    Associative([s[0]], u, Substitute(Narrow, m, v));
  }

  lemma NoOpenAfterFirst(k: Kind, s: string, n: nat)
    requires 0 < n == MatchLength(k, s)
    ensures '<' !in s[1..n]
  {
    PlaceholderShape(k, s[..n]);
    hide IsPlaceholder, MatchLength;
    assert forall i | 1 <= i < n :: s[1..n][i - 1] == s[..n][i];
  }

  /** Only the entries of placeholders that occur matter. */
  lemma {:induction false} SubstituteSame(k: Kind, m: map<string, string>, m': map<string, string>, s: string)
    requires forall p | p in Matches(k, s) :: Entry(m, p) == Entry(m', p)
    ensures Substitute(k, m, s) == Substitute(k, m', s)
  {
    if s != "" {
      var n := MatchLength(k, s);
      var c := if n == 0 then 1 else n;
      assert forall p | p in Matches(k, s[c..]) :: p in Matches(k, s);
      SubstituteSame(k, m, m', s[c..]);
      if n > 0 { assert s[..n] in Matches(k, s); }
    }
  }
}
