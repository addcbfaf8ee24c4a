/** Replacing spans of a text: what `mask_text` builds piece by piece in `out`, and what the
    placeholder scan sees in the result. */
module Splicing {
  import opened Placeholders
  import opened Detection

  function EndOf(ds: seq<Detection>): nat {
    if ds == [] then 0 else ds[|ds| - 1].end
  }

  /** The detections are where they claim to be, disjoint and in order. */
  ghost predicate Placed(text: string, ds: seq<Detection>) {
    InOrder(ds) && forall i | 0 <= i < |ds| :: ds[i].end <= |text|
  }

  lemma PlacedPrefix(text: string, ds: seq<Detection>, n: nat)
    requires Placed(text, ds) && n <= |ds|
    ensures Placed(text, ds[..n]) && EndOf(ds[..n]) <= |text|
    ensures n < |ds| ==> EndOf(ds[..n]) <= ds[n].start < ds[n].end <= |text|
  {}

  /** The text up to the end of the last span, with every span replaced. */
  ghost function SpliceTo(text: string, ds: seq<Detection>, fills: seq<string>): string
    requires Placed(text, ds) && |fills| == |ds|
  {
    if ds == [] then ""
    else
      var n := |ds| - 1;
      PlacedPrefix(text, ds, n);
      SpliceTo(text, ds[..n], fills[..n]) + text[EndOf(ds[..n])..ds[n].start] + fills[n]
  }

  /** The whole text with span `ds[i]` replaced by `fills[i]`. */
  ghost function Splice(text: string, ds: seq<Detection>, fills: seq<string>): string
    requires Placed(text, ds) && |fills| == |ds|
  {
    SpliceTo(text, ds, fills) + text[EndOf(ds)..]
  }

  lemma SpliceToLast(text: string, ds: seq<Detection>, fills: seq<string>)
    requires Placed(text, ds) && |fills| == |ds| && ds != []
    ensures var n := |ds| - 1;
      && Placed(text, ds[..n]) && EndOf(ds[..n]) <= ds[n].start <= |text|
      && SpliceTo(text, ds, fills)
         == SpliceTo(text, ds[..n], fills[..n]) + text[EndOf(ds[..n])..ds[n].start] + fills[n]
  {
    PlacedPrefix(text, ds, |ds| - 1);
  }

  lemma SpliceToSnoc(text: string, ds: seq<Detection>, fills: seq<string>, d: Detection, fill: string)
    requires Placed(text, ds + [d]) && |fills| == |ds|
    ensures Placed(text, ds) && EndOf(ds) <= d.start <= |text|
    ensures SpliceTo(text, ds + [d], fills + [fill]) == SpliceTo(text, ds, fills) + text[EndOf(ds)..d.start] + fill
  {
    PlacedPrefix(text, ds + [d], |ds|);
    assert (ds + [d])[..|ds|] == ds && (fills + [fill])[..|ds|] == fills;
  }

  lemma SpliceParts(text: string, ds: seq<Detection>, fills: seq<string>)
    requires Placed(text, ds) && |fills| == |ds|
    ensures EndOf(ds) <= |text| && Splice(text, ds, fills) == SpliceTo(text, ds, fills) + text[EndOf(ds)..]
  {}

  ghost function Surfaces(ds: seq<Detection>): seq<string> {
    seq(|ds|, i requires 0 <= i < |ds| => ds[i].surface)
  }

  /** Putting every span's own text back changes nothing. */
  lemma {:induction false} SpliceSurfaces(text: string, ds: seq<Detection>)
    requires Placed(text, ds) && forall i | 0 <= i < |ds| :: ds[i].surface == text[ds[i].start..ds[i].end]
    ensures SpliceTo(text, ds, Surfaces(ds)) == text[..EndOf(ds)]
    ensures Splice(text, ds, Surfaces(ds)) == text
  {
    if ds != [] {
      hide InOrder;
      var n := |ds| - 1;
      PlacedPrefix(text, ds, n);
      SpliceSurfaces(text, ds[..n]);
      assert Surfaces(ds)[..n] == Surfaces(ds[..n]);
      JoinThree(text, EndOf(ds[..n]), ds[n].start, ds[n].end);
    }
    JoinThree(text, EndOf(ds), |text|, |text|);
  }

  lemma JoinThree(text: string, a: nat, b: nat, c: nat)
    requires a <= b <= c <= |text|
    ensures text[..a] + text[a..b] + text[b..c] == text[..c]
    ensures text[..a] + text[a..] == text
  {}

  // ------------------------------------------------- scanning and unmasking spliced text

  ghost function Entries(m: map<string, string>, fills: seq<string>): seq<string> {
    seq(|fills|, i requires 0 <= i < |fills| => Entry(m, fills[i]))
  }

  /** Scanned text, then text without placeholders, then one placeholder. */
  lemma OneMorePlaceholder(front: string, gap: string, p: string, m: map<string, string>)
    requires front == "" || front[|front| - 1] == '>'
    requires MatchFree(Narrow, gap) && IsPlaceholder(Narrow, p)
    ensures Matches(Narrow, front + gap + p) == Matches(Narrow, front) + [p]
    ensures Substitute(Narrow, m, front + gap + p) == Substitute(Narrow, m, front) + gap + Entry(m, p)
    ensures var s := front + gap + p; s[|s| - 1] == '>'
  {
    hide IsPlaceholder, Substitute, Matches, Entry, Straddles, MatchFree;
    PlaceholderShape(Narrow, p);
    NoStraddle(Narrow, gap, p);
    MatchesAppend(Narrow, gap, p);
    SubstituteAppend(Narrow, m, gap, p);
    MatchFreeScan(Narrow, gap, m);
    ScanOne(Narrow, p, m);
    NoStraddle(Narrow, front, gap + p);
    MatchesAppend(Narrow, front, gap + p);
    SubstituteAppend(Narrow, m, front, gap + p);
    assert front + gap + p == front + (gap + p);
  }

  lemma {:induction false} ScanSpliceTo(text: string, ds: seq<Detection>, fills: seq<string>, m: map<string, string>)
    requires Placed(text, ds) && |fills| == |ds| && MatchFree(Narrow, text)
    requires forall i | 0 <= i < |fills| :: IsPlaceholder(Narrow, fills[i])
    ensures Matches(Narrow, SpliceTo(text, ds, fills)) == fills
    ensures Substitute(Narrow, m, SpliceTo(text, ds, fills)) == SpliceTo(text, ds, Entries(m, fills))
    ensures var s := SpliceTo(text, ds, fills); s == "" || s[|s| - 1] == '>'
  {
    hide IsPlaceholder, Substitute, Matches, Entry, MatchFree, Placed;
    if ds == [] {
      EmptyScan(Narrow, m);
    } else {
      var n := |ds| - 1;
      PlacedPrefix(text, ds, n);
      ScanSpliceTo(text, ds[..n], fills[..n], m);
      MatchFreePart(Narrow, text, EndOf(ds[..n]), ds[n].start);
      OneMorePlaceholder(SpliceTo(text, ds[..n], fills[..n]), text[EndOf(ds[..n])..ds[n].start], fills[n], m);
      assert Entries(m, fills)[..n] == Entries(m, fills[..n]);
      assert fills == fills[..n] + [fills[n]];
      SpliceToLast(text, ds, fills);
      SpliceToLast(text, ds, Entries(m, fills));
      hide SpliceTo;
    }
  }

  /** The placeholders matched in spliced text are exactly the ones put in, in order, and
      unmasking replaces each where it stands. */
  lemma ScanSplice(text: string, ds: seq<Detection>, fills: seq<string>, m: map<string, string>)
    requires Placed(text, ds) && |fills| == |ds| && MatchFree(Narrow, text)
    requires forall i | 0 <= i < |fills| :: IsPlaceholder(Narrow, fills[i])
    ensures Matches(Narrow, Splice(text, ds, fills)) == fills
    ensures Substitute(Narrow, m, Splice(text, ds, fills)) == Splice(text, ds, Entries(m, fills))
  {
    hide IsPlaceholder, Substitute, Matches;
    PlacedPrefix(text, ds, |ds|);
    assert ds[..|ds|] == ds;
    var front, rest := SpliceTo(text, ds, fills), text[EndOf(ds)..];
    ScanSpliceTo(text, ds, fills, m);
    NoStraddle(Narrow, front, rest);
    MatchesAppend(Narrow, front, rest);
    SubstituteAppend(Narrow, m, front, rest);
    MatchFreePart(Narrow, text, EndOf(ds), |text|);
    assert text[EndOf(ds)..|text|] == rest;
    MatchFreeScan(Narrow, rest, m);
    assert fills + [] == fills;
  }
}
